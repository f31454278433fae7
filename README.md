# pugi_serializer in Dafny

This project models the direction-polymorphic XML serialization facade of
`src/pugi_serializer.cpp`. A single piece of traversal code walks a cursor
(`serilaizer_base`) through an element tree. The cursor carries a node and a
reference to the session's one strategy object, and forwards every call, with
its node, to that strategy. There are two strategies:

- `writer_impl` builds the tree: `child` appends, `next_sibling` inserts,
  `node_name` renames, `text` sets the text, `attribute` appends an attribute.
- `reader_impl` copies values out of an existing tree into the caller's
  variables and never changes the tree.

The direction is fixed when the session is built (`writer` or `reader`).
The one place the code changes it later is the cursor's copy assignment,
covered by finding 5.

## Layout

- `xml_store.dfy`, module `XmlStore`: an abstract stand-in for the pugixml
  document. A `Store` maps node handles to nodes. Each node has a name, a
  parent, an ordered child list, optional text and an ordered attribute list.
  The handle `Null` is pugixml's empty node: queries on it return nothing and
  updates on it do nothing. The handle `Root` is the document node; every
  other node is an element. As in pugixml, set_name and append_attribute do
  nothing on the document node. Pure functions give the meaning of each pugixml
  primitive the serializer calls. `WellFormed` states that parent and child
  links agree, and lemmas prove that every update keeps it. The class
  `Document` is the shared, mutable document; its methods are the primitives.
- `scalars.dfy`, module `Scalars`: the caller's variables as one `Scalar`
  type. An `Integer` carries its C++ width (`int`, `unsigned`, `long long`,
  `unsigned long long`); the other cases are `Boolean` and `Chars` (for
  `std::string`). The module also has pugixml's typed reads (`as_int`,
  `as_uint`, `as_llong`, `as_ullong`, `as_bool`, `as_string`) and C++'s
  conversion of an `int` into a slot of another width. The integer reads
  follow current pugixml releases, which saturate: a value outside the
  target type's range reads as that type's minimum or maximum. Older
  releases converted through `strtol` and a cast, and are not what this
  model describes.
- `impl.dfy`, module `Impl`: the reader's operations as pure functions of
  (store, node, old slot), the writer's as store updates, the lemmas that pair
  them, and the class `Implementor` (`impl_base`). Its `reading` flag is set
  once by the `Writer()` or `Reader()` constructor, and its methods dispatch
  on that flag the way the virtual calls do.
- `pugi_serializer.dfy`, module `PugiSerializer`: the cursor class
  `Serializer` with the `writer`/`reader` constructors, and client methods
  that run whole sessions through cursors.

Node handles in pugixml point into their document. In the model a cursor
holds the `Document` explicitly, next to the node handle. Text and attribute
content is stored typed (`Value`), not as decimal text. pugixml stores an
attribute assigned the empty string as no value, and the attribute
conversions (`as_string(fallback)`, `as_int(fallback)`, ...) return their
fallback for it; the attribute readers model this as `Impl.Unset`. pugixml
likewise stores an empty node or attribute name as no name, and `child`,
`next_sibling` and `attribute` never match a node or attribute without a
name, so in the model the empty name is never found.

The code sometimes differs from the facade's design intent. The model
follows the code:

- Reading text with a default does not fall back on the default when the node
  has no text. It reads only when the variable differs from the default.
- Most of the cursor's text overloads do nothing.
- Using a cursor at the null node does not fail. Every operation on the null
  node is silently ignored, or yields an empty or zero value.

The findings table below covers the first two points. It also covers the
text readers' use of `as_int` for every numeric type, the string attribute
readers' handling of an empty value, and copy assignment of cursors. For each
finding the model also has a corrected version, with its intended property
proved.

## Model

| member | source | states |
|---|---|---|
| `Impl.Implementor.Writer` | src/pugi_serializer.cpp:84-87 | the writer strategy is built with the reading flag false |
| `Impl.Implementor.Reader` | src/pugi_serializer.cpp:77 | the reader strategy keeps the flag's initial value, true |
| `Impl.Implementor.Writing` | src/pugi_serializer.cpp:35-36 | `writing()` is always the negation of `reading()`. In this model the flag is a constant set only by the two constructors. In the source, `serilaizer_base::operator=` (389-398) can also reassign it, through impl_base's copy assignment (31). That operator is modelled apart, on values, by `PugiSerializer.AssignAsWritten` (finding 5) |
| `Impl.Implementor.NodeName` | src/pugi_serializer.cpp:89-92 | reading: the tree is unchanged and the slot receives the node's name (empty for the null node); writing: the node is renamed to the slot and the slot is unchanged | (reader at 236-239)
| `Impl.Implementor.Child` | src/pugi_serializer.cpp:94-98 | reading: tree unchanged, result is the first child with that name or null; writing: the result of append_child | (reader at 241-245)
| `Impl.Implementor.NextSibling` | src/pugi_serializer.cpp:100-104 | reading: tree unchanged, result is the first later sibling with that name or null; writing: a node inserted after the current one under its parent | (reader at 247-251)
| `Impl.Implementor.Text` | src/pugi_serializer.cpp:106-165 | reading: tree unchanged, slot becomes `ReadText`; writing: the node's text becomes the slot's value, slot unchanged; the tree stays well formed | (reader at 253-301)
| `Impl.Implementor.TextDefault` | src/pugi_serializer.cpp:111-165 | reading: tree unchanged, slot becomes `ReadTextDefault`; writing: the text is set only when the slot differs from the default | (reader at 258-303)
| `Impl.Implementor.Attribute` | src/pugi_serializer.cpp:168-229 | reading: tree unchanged, slot becomes `ReadAttribute`; writing: one attribute appended with the slot's value | (reader at 305-380)
| `Impl.Implementor.AttributeDefault` | src/pugi_serializer.cpp:174-229 | reading: tree unchanged, slot becomes `ReadAttributeDefault`; writing: an attribute is appended only when the slot differs from the default | (reader at 311-380)
| `Impl.Implementor.TextCorrected` | src/pugi_serializer.cpp:270-301 | `Text` with the corrected text reader (finding 1) |
| `Impl.Implementor.TextDefaultCorrected` | src/pugi_serializer.cpp:272-303 | `TextDefault` with the corrected defaulted reader, for every slot type (finding 2) |
| `Impl.Implementor.AttributeCorrected` | src/pugi_serializer.cpp:305-308 | `Attribute` with the corrected attribute reader (finding 4) |
| `Impl.Implementor.AttributeDefaultCorrected` | src/pugi_serializer.cpp:311-317 | `AttributeDefault` with the corrected defaulted attribute reader (finding 4) |
| `XmlStore.FindNamed` | src/pugi_serializer.cpp:243 | the result is null exactly when no listed node has that name, which is always the case for the empty name; otherwise it is the node at the first position holding one |
| `XmlStore.FindAttribute` | src/pugi_serializer.cpp:313 | absent exactly when the name is empty or no attribute has that name; otherwise the value of the first attribute with that name (no earlier attribute has it) |
| `XmlStore.IndexOf` | src/pugi_serializer.cpp:249 | absent exactly when the node is not listed; otherwise its first position (how next_sibling locates the current node among its parent's children) |
| `XmlStore.IndexOfAt` | src/pugi_serializer.cpp:249 | a position holding the node with no earlier occurrence is the one next_sibling starts after |
| `XmlStore.FindNamedAppend` | src/pugi_serializer.cpp:243 | child lookup on a list with one more node at its end keeps an earlier match, else finds the new node if it has the (non-empty) name |
| `XmlStore.FindNamedFrame` | src/pugi_serializer.cpp:243 | child lookup depends only on the names of the listed nodes |
| `XmlStore.FindAttributeAppend` | src/pugi_serializer.cpp:170 | after appending an attribute, lookup keeps the earlier match, else finds the new one if it has the name and the name is not empty |
| `XmlStore.Empty` | src/pugi_serializer.cpp:501-502 | a fresh document holds only the document node, with no children, and is well formed |
| `XmlStore.Document.constructor` | src/pugi_serializer.cpp:501-502 | the document a writer session starts from is empty and well formed |
| `XmlStore.AppendChildThenFind` | src/pugi_serializer.cpp:94-98 | writer `child` appends a fresh node with the given name as the last child; the parent changes only in its child list and all other nodes are unchanged; the reader's child lookup then finds the new node, unless an earlier child already had that name or the name is empty |
| `XmlStore.InsertAfterThenFind` | src/pugi_serializer.cpp:100-104 | the new sibling is the one added node, with the name, the parent and nothing else; it sits immediately after the current node in the parent's child list, which is the only change to the parent, and no other node changes; the reader's next_sibling with that name finds it when the name is not empty (the empty name finds nothing) |
| `XmlStore.WithChildAppendedValid` | src/pugi_serializer.cpp:96 | append_child keeps parent and child links consistent |
| `XmlStore.SpliceFacts` | src/pugi_serializer.cpp:102 | the child list after insert_child_after is still free of repeats and holds exactly the old children and the new node |
| `XmlStore.WithChildInsertedAfterValid` | src/pugi_serializer.cpp:102 | insert_child_after keeps parent and child links consistent |
| `XmlStore.RenamedValid` | src/pugi_serializer.cpp:91 | set_name keeps the tree well formed |
| `XmlStore.WithTextValid` | src/pugi_serializer.cpp:122 | text().set keeps the tree well formed |
| `XmlStore.WithAttributeAppendedValid` | src/pugi_serializer.cpp:183 | append_attribute keeps the tree well formed |
| `XmlStore.Document.SetName` | src/pugi_serializer.cpp:91 | the document's new state is the renamed store (unchanged on the document node) and stays well formed |
| `XmlStore.Document.SetText` | src/pugi_serializer.cpp:108 | the document's new state carries the new text and stays well formed |
| `XmlStore.Document.AppendAttribute` | src/pugi_serializer.cpp:170 | the document's new state has one more attribute on an element, is unchanged on the document node, and stays well formed |
| `XmlStore.Document.AppendChild` | src/pugi_serializer.cpp:96 | the document's new state and the returned handle are those of append_child |
| `XmlStore.Document.InsertChildAfter` | src/pugi_serializer.cpp:102 | the document's new state and the returned handle are those of insert_child_after |
| `Scalars.Clamp` | src/pugi_serializer.cpp:319-380 | the integer reads, taking pugixml's conversions to saturate (as current releases do), clamp into the slot type's range and keep in-range values |
| `Scalars.FromInt` | src/pugi_serializer.cpp:275-301 | the `int` from as_int stored in a slot of another width: unchanged when it fits, wrapped modulo 2^32 or 2^64 when a negative value meets an unsigned slot |
| `Scalars.AsInteger` | src/pugi_serializer.cpp:319-335 | as_int, as_uint, as_llong, as_ullong, assumed saturating as in current pugixml: clamped integers, 0 for the words true and false |
| `Scalars.AsBool` | src/pugi_serializer.cpp:355-362 | as_bool gives back a stored bool |
| `Scalars.Decode` | src/pugi_serializer.cpp:305-380 | the typed read picked by the slot's type yields a well-typed value of that same type |
| `Scalars.Zero` | src/pugi_serializer.cpp:255 | an absent text reads as the zero value of the slot's type |
| `Scalars.DecodeEncode` | src/pugi_serializer.cpp:196-229 | a value written from a slot reads back unchanged with the same slot type |
| `Impl.TextAsInt` | src/pugi_serializer.cpp:271 | text().as_int() lies in the int range and is 0 without text |
| `Impl.ReadText` | src/pugi_serializer.cpp:253-301 | the result has the slot's type and fits it; without text it is the zero value |
| `Impl.ReadTextDefault` | src/pugi_serializer.cpp:272-303 | the result has the slot's type. When the slot already equals the default it is left as it is, whatever text is stored; otherwise the text is read exactly as the plain reader (`ReadText`) reads it |
| `Impl.ReadAttribute` | src/pugi_serializer.cpp:305-380 | the result has the slot's type. An absent attribute, and one holding the empty string (stored as no value), leave the slot unchanged; any other value is read with the slot's own conversion |
| `Impl.ReadAttributeDefault` | src/pugi_serializer.cpp:311-379 | the result has the slot's type. An absent attribute yields the default. One holding the empty string yields the old slot for std::string (the fallback at 314) and the default for the other types (the fallback at 325 and the like). Any other value is read with the slot's own conversion |
| `Impl.ReadTextCorrected` | src/pugi_serializer.cpp:270-301 | corrected text reader: present text is read with the slot's own conversion (`Decode`); the zero value without text |
| `Impl.ReadAttributeCorrected` | src/pugi_serializer.cpp:305-308 | corrected attribute reader: a present value, the empty string included, is read back with the slot's conversion; an absent one leaves the slot |
| `Impl.ReadAttributeDefaultCorrected` | src/pugi_serializer.cpp:311-317 | corrected defaulted attribute reader: the default when the attribute is absent; any present value, the empty string included, read with the slot's own conversion |
| `Impl.ReadTextDefaultCorrected` | src/pugi_serializer.cpp:272-303 | corrected defaulted text reader: the default when there is no text, otherwise the stored text read with the slot's own conversion |
| `Impl.WriteText` | src/pugi_serializer.cpp:106-123 | writer_impl::text and write_node_value: on a node of the store, that node gets the slot's value as its text and keeps its name, parent, children and attributes; no other node changes, and no node is added; at a node outside the store nothing changes. Its reader partner is `Impl.TextRoundTrip` |
| `Impl.WriteTextDefault` | src/pugi_serializer.cpp:111-130 | the defaulted text write: nothing changes when the value equals the default or the node is outside the store; otherwise the node gets the value as its text and keeps all else, and no other node changes. See `Impl.TextDefaultOmission` and `Impl.TextDefaultRoundTrip` |
| `Impl.WriteAttribute` | src/pugi_serializer.cpp:168-184 | append_attribute set to the slot's value: on an element the attribute list gains exactly that attribute, and the reader's lookup then finds the value unless the name was present already (the first one stays visible) or is empty; off elements nothing changes. Its reader partner is `Impl.AttributeRoundTrip` |
| `Impl.WriteAttributeDefault` | src/pugi_serializer.cpp:174-194 | the defaulted attribute write: nothing changes when the value equals the default or off elements; otherwise a new non-empty name is then found holding the value. See `Impl.AttributeDefaultOmission` |
| `Impl.WriteNextSibling` | src/pugi_serializer.cpp:100-104 | insert_child_after under the node's parent: without a parent nothing changes and the result is null; in a well-formed store a node with a parent always gets a new sibling, and a null result leaves the store unchanged; a new sibling is the one added node, carrying the name and the parent, and only the parent's child list changes. See `Impl.NextSiblingRoundTrip` and `XmlStore.InsertAfterThenFind` |
| `Impl.NodeNameRoundTrip` | src/pugi_serializer.cpp:236-239 | on an element, the name set by the writer's `node_name` (89-92) is the one the reader's `node_name` copies out. On the document node, where set_name is refused, the store is unchanged. No node is added or removed |
| `Impl.NextSiblingRoundTrip` | src/pugi_serializer.cpp:247-251 | after the writer's `next_sibling(name)` (100-104), the new node has the same parent, and the reader's `next_sibling(name)` from the same node yields it, or null for the empty name |
| `Impl.SiblingInsertionOrder` | src/pugi_serializer.cpp:100-104 | siblings inserted from the same node come out in reverse call order: under a parent whose only child is a, next_sibling("b") then next_sibling("c") from a give [a, b] and then [a, c, b], with the names in that order |
| `Impl.TextDefaultOmission` | src/pugi_serializer.cpp:111-130 | the defaulted text write leaves the store unchanged when the value equals the default; otherwise it is the plain write and the text is present |
| `Impl.AttributeDefaultOmission` | src/pugi_serializer.cpp:186-194 | the defaulted attribute write leaves the store unchanged when the value equals the default. Otherwise it is the plain write: on an element, exactly that one attribute is appended and nothing else changes; on the document node, or at the null node, nothing changes |
| `Impl.AttributeRoundTrip` | src/pugi_serializer.cpp:319-322 | an attribute written without a default (196-197) on a node lacking it reads back, for every slot type, as the written value, except in three cases, where the reader's slot keeps the value it had: on the document node (nothing was written), for the empty name (never matched) and for the empty string (stored as no value) |
| `Impl.AttributeDefaultRoundTrip` | src/pugi_serializer.cpp:305-326 | writing v with default d on a node lacking the attribute, then reading with default d, yields v whether or not v equals d, except: on the document node or under the empty name, with v != d, it yields d; for v the empty string with d non-empty it yields the reader's old value |
| `Impl.AttributeEmptyKeepsSlot` | src/pugi_serializer.cpp:311-317 | on an element, writing "" with default "x" (174-178) under a non-empty name stores the attribute with the empty value, and reading it with default "x" into a variable holding "y" gives "y" (under the empty name it gives "x") |
| `Impl.AttributeRoundTripCorrected` | src/pugi_serializer.cpp:305-308 | with the corrected reader, an attribute written on an element lacking it reads back as the written value for every slot type, the empty string included; on the document node or under the empty name the slot keeps its value |
| `Impl.AttributeDefaultRoundTripCorrected` | src/pugi_serializer.cpp:311-317 | with the corrected reader, writing v with default d and reading with default d yields v for every slot type, the empty string included; on the document node or under the empty name, with v != d, it yields d |
| `Impl.AttributeRewriteKeepsFirst` | src/pugi_serializer.cpp:168-171 | appending an attribute whose name is already present changes nothing the reader sees: the reader finds the first one |
| `Impl.TextRoundTrip` | src/pugi_serializer.cpp:270-301 | text written by the writer reads back unchanged exactly when it survives as_int: strings always, the bool true never, integers only within the 32-bit int range |
| `Impl.TextTrueReadsFalse` | src/pugi_serializer.cpp:290-291 | the bool true written as text reads back false |
| `Impl.TextLargeUnsignedClamps` | src/pugi_serializer.cpp:275-276 | the unsigned 3000000000 written as text reads back 2147483647 (with pugixml's saturating `as_int`) |
| `Impl.TextRoundTripCorrected` | src/pugi_serializer.cpp:270-301 | with the corrected reader, every written value of every slot type reads back unchanged |
| `Impl.TextDefaultRoundTrip` | src/pugi_serializer.cpp:272-303 | as the code is written: a value other than the default, written with that default (126-130) and read back with the default into a variable not holding it, comes back exactly when it survives as_int |
| `Impl.TextDefaultIgnoresText` | src/pugi_serializer.cpp:272-273 | with the slot holding the default, the defaulted reader returns the default although other text is stored |
| `Impl.TextDefaultRoundTripCorrected` | src/pugi_serializer.cpp:272-303 | with the corrected reader, writing v with default d and reading with default d yields v, whether or not v equals d |
| `PugiSerializer.Serializer.constructor` | src/pugi_serializer.cpp:384-387 | a cursor holds exactly the given node and strategy |
| `PugiSerializer.Serializer.Writer` | src/pugi_serializer.cpp:501-505 | a new writing strategy and a new root element appended to the document node |
| `PugiSerializer.Serializer.WriterAt` | src/pugi_serializer.cpp:507-509 | a writing cursor at the given node |
| `PugiSerializer.Serializer.Reader` | src/pugi_serializer.cpp:516-517 | a reading cursor at the document element |
| `PugiSerializer.Serializer.ReaderAt` | src/pugi_serializer.cpp:519-520 | a reading cursor at the given node |
| `PugiSerializer.Serializer.Writing` | src/pugi_serializer.cpp:401-402 | the cursor's `writing()` is the negation of its `reading()`, both taken from the strategy |
| `PugiSerializer.Serializer.NodeName` | src/pugi_serializer.cpp:404-407 | forwards to the strategy with the cursor's node |
| `PugiSerializer.Serializer.Child` | src/pugi_serializer.cpp:409-413 | a new cursor at the node the strategy chose, bound to the same strategy and document, so the direction is kept |
| `PugiSerializer.Serializer.NextSibling` | src/pugi_serializer.cpp:415-419 | a new cursor at the node the strategy chose, bound to the same strategy and document, so the direction is kept |
| `PugiSerializer.Serializer.Text` | src/pugi_serializer.cpp:421-488 | the std::string, int and unsigned overloads forward to the strategy; the bool, long long and unsigned long long overloads change neither the slot nor the tree |
| `PugiSerializer.Serializer.TextDefault` | src/pugi_serializer.cpp:426-488 | only the std::string overload forwards; the int, unsigned, bool, long long and unsigned long long overloads change neither the slot nor the tree |
| `PugiSerializer.Serializer.Attribute` | src/pugi_serializer.cpp:490-493 | forwards the std::string attribute transfer to the strategy |
| `PugiSerializer.Serializer.AttributeDefault` | src/pugi_serializer.cpp:495-498 | forwards the defaulted std::string attribute transfer to the strategy |
| `PugiSerializer.Serializer.TextCorrected` | src/pugi_serializer.cpp:449-488 | corrected cursor: every text overload forwards (finding 3) |
| `PugiSerializer.Serializer.TextDefaultCorrected` | src/pugi_serializer.cpp:436-488 | corrected cursor: every defaulted text overload forwards (finding 3) |
| `PugiSerializer.Serializer.AttributeCorrected` | src/pugi_serializer.cpp:490-493 | the std::string attribute transfer forwarded to the corrected reader |
| `PugiSerializer.Serializer.AttributeDefaultCorrected` | src/pugi_serializer.cpp:495-498 | the defaulted std::string attribute transfer forwarded to the corrected reader |
| `PugiSerializer.SiblingSession` | src/pugi_serializer.cpp:415-419 | through writer cursors: root p, child a, then next_sibling b and c from a, leaves p's children named [a, c, b] |
| `PugiSerializer.TextSessionAsWritten` | src/pugi_serializer.cpp:431-443 | a text value written and read back through the cursors as written: the forwarding overloads return it exactly when it survives as_int; the others leave the reader's slot as it was |
| `PugiSerializer.TextSession` | src/pugi_serializer.cpp:436-438 | through corrected cursors, writing v with default d and reading with default d returns v for every slot type |
| `PugiSerializer.AttributeSession` | src/pugi_serializer.cpp:495-498 | a string attribute written with a default and read back through cursors with that default returns the written value, or the reader's old value when the empty string is written against a non-empty default |
| `PugiSerializer.AttributeSessionCorrected` | src/pugi_serializer.cpp:495-498 | the same session through the corrected reader always returns the written value |
| `PugiSerializer.CountSessionAsWritten` | src/pugi_serializer.cpp:436-438 | root "doc" gets child "count", written 5 with default 0, and child "zero", written 0 with default 0, through the cursor as written: doc has the children [count, zero] in that order, and neither child has text |
| `PugiSerializer.CountSession` | src/pugi_serializer.cpp:436-438 | the same session through the corrected cursor: doc has the children [count, zero]; "count" has text 5; "zero" has no text, but `child` (94-98) has appended the element anyway |
| `PugiSerializer.TwoFieldStore` | src/pugi_serializer.cpp:501-505 | the store a two-field writer session leaves: document element "doc" with the children [count, zero] in that order, "count" carrying the text written to it and "zero" none |
| `PugiSerializer.AssignAsWritten` | src/pugi_serializer.cpp:389-398 | copy assignment of a cursor as written: the node is copied, and the strategy keeps its class but takes the other strategy's flag |
| `PugiSerializer.AssignAsWrittenConsistent` | src/pugi_serializer.cpp:389-398 | after assignment the strategy's flag agrees with its class exactly when both cursors have strategies of the same class |
| `PugiSerializer.WriterAssignedFromReader` | src/pugi_serializer.cpp:394 | a writer cursor assigned from a reader cursor reports `reading()` while its strategy still runs the writer's code |
| `PugiSerializer.AssignCorrected` | src/pugi_serializer.cpp:389-398 | corrected assignment: the cursor takes the other's node and strategy, so a consistent strategy stays consistent |

## Findings

| source | as written | input that shows it | evidently intended | confidence | as-written member | corrected member |
|---|---|---|---|---|---|---|
| src/pugi_serializer.cpp:275-301 | the text readers for `unsigned`, `bool`, `long long` and `unsigned long long` all call `as_int` | `true` written as text reads back `false`; the unsigned 3000000000 reads back 2147483647 | each type is read with its own conversion (`as_uint`, `as_bool`, `as_llong`, `as_ullong`), as the attribute readers do | not executed; high | `Impl.TextTrueReadsFalse` | `Impl.TextRoundTripCorrected` |
| src/pugi_serializer.cpp:272-303 | the defaulted text readers read only `if (def != _val)` | the slot holds 0, the default is 0, the node's text is 5: the slot stays 0 | read the text when the node has text, otherwise store the default | not executed; medium | `Impl.TextDefaultIgnoresText` | `Impl.TextDefaultRoundTripCorrected` |
| src/pugi_serializer.cpp:436-488 | the cursor's defaulted `int` and `unsigned` text overloads, and every `float`, `double`, `bool`, `long long` and `unsigned long long` text overload, have empty bodies | a writer cursor's `child("count").text(5, 0)` leaves `count` without text | forward to the strategy, as the `int` overload at 431-434 does | not executed; medium | `PugiSerializer.CountSessionAsWritten` | `PugiSerializer.CountSession` |
| src/pugi_serializer.cpp:305-317 | the string attribute readers call `as_string(_text.c_str())`, with the variable's old value as the fallback; an attribute written as the empty string (170, 177) holds no value, so the fallback is returned | write `""` with default `"x"`, then read with default `"x"` into a variable holding `"y"`: the reader gets `"y"` | a present attribute is read back as it was written, the empty string included | not executed; medium | `Impl.AttributeEmptyKeepsSlot` | `Impl.AttributeDefaultRoundTripCorrected` |
| src/pugi_serializer.cpp:389-398 | `_implementor = other._implementor` assigns through a reference member, so impl_base's defaulted copy assignment (31) copies the other strategy's `_reading` flag into this cursor's strategy object, which keeps its class | assign a reader cursor to a writer cursor: the writer's strategy then reports `reading()` true, while `child` still appends | the cursor takes the other cursor's node and strategy | not executed; medium | `PugiSerializer.WriterAssignedFromReader` | `PugiSerializer.AssignCorrected` |

## Left out

- The `float` and `double` overloads (strategy and cursor) are left out: they are floating point.
- Impl.ReadTextDefault: the reader's defaulted `std::string` text (258-268) is not modelled, because it depends on pugixml's split between a node's `value()` and its `text()`. The function requires a non-string slot for that reason.
- Impl.Implementor.TextDefault: in the reading direction it requires a non-string slot, for the same reason.
- PugiSerializer.Serializer.TextDefault: the `std::string` overload requires the writing direction, for the same reason.
- Scalars.AsInteger: reading free text (a stored string) as an integer gives 0, because parsing decimal text is not modelled. Leading whitespace, signs and hexadecimal forms are not modelled either. Reading a stored integer as a string or a bool goes through its decimal form.
- The cursor's attribute overloads for non-string types are not defined in `src/pugi_serializer.cpp`, so they are not modelled. The strategy's attribute transfers are modelled for every type.
- PugiSerializer.AssignAsWritten: `serilaizer_base::operator=` (389-398) is modelled on values, not on the classes. The model does not capture that the flag is copied into the strategy object shared by every cursor of the target's session (aliasing), and the class `Impl.Implementor` keeps its flag constant.
- Heap ownership is left out: the strategy is allocated with `new` and freed by the `writer`/`reader` destructors. The model allocates the strategy and never frees it.
- Loading or saving a document is I/O and is left out. A document starts empty (`XmlStore.Document.constructor`). `Serializer.Writer` (`writer(doc, doc_element_name)`) starts at a new element appended to the document node of the given document, `Serializer.Reader` (`reader(doc)`) at its document element, and the `WriterAt`/`ReaderAt` forms (the constructors taking `in_node`) at the given node.
- pugixml keeps text as a text child node. The model keeps it in a field of the node.
- pugixml's string-to-integer conversion is taken to saturate, as in current releases. Older releases, which converted through `strtol` and a cast and so wrapped or truncated out-of-range values, are not modelled.
- There is no concurrency in the code, so none is modelled.
