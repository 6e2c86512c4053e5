# helium: verified models of the XML tree and parser

helium is an XML toolkit in Go. This project models the parts of it where several pointers, stacks, counters or
recursive texts have to agree with each other, and proves what they are for.

- **The document tree** (`DomLinks`, `DomSplice`, `DomForest`, `DomGraph`, `DomWalk`, `DomCycles`, `Dom`). Nodes live in
  an arena with one sequence for each of the fields `parent`, `firstChild`, `lastChild`, `next`, `prev`; a ghost field
  gives every node the sibling list it stands in. `AddChild`, `AddSibling`, `Replace` and `UnlinkNode` update the fields
  in place. `Walk`, `childReaches` and `wouldCreateCycle` are also proved on link graphs that are no forest.
- **Content models** (`Languages`, `ContentModels`, `ContentModelText`, `ContentTable`, `ContentParser`). The text of
  `<!ELEMENT e (a,(b|c?)+)*>`, the tree the parser builds from it while it folds and drops occurrence marks, and the
  language both stand for.
- **Character references and entities** (`Utf8`, `Names`, `CharRefs`, `CharRefForms`, `EntityText`, `EntityExpansion`,
  `EntityValues`, `EntityEscapes`, `EntityAccounting`, `EntityDecoder`). Names on runes and the two scanners for them. The
  decoder that expands references into a sink under a depth limit and an expansion budget; what it makes of an entity value
  (section 4.5) and of text written with the predefined entities (section 4.6).
- **Attribute values** (`AttributeWfc`, `AttributeNormalization`, `AttributeValues`, `AttributeExpansion`,
  `AttributeKept`). The memoised walk for the well-formedness constraints on entities in attribute values; normalisation; and what entity references
  come to in a value, replaced or kept, against section 3.3.3 of XML 1.0.
- **Deep copy** (`Namespaces`, `CopyTrees`, `DeepCopy`). Copying an element with its namespaces in both binding modes.
- **Stacks and slabs** (`InputScopes`, `NamespaceStack`, `IgnoredSections`, `TextSlab`).

What changes state in the source is a class or a method with a loop here; each is proved against a function or relation on
values, and the properties are proved of that. The small functions that both sides rest on (which attributes are taken for
the same, what the predefined entities stand for, which characters names may hold, what a charge comes to) have laws of
their own, stated over fields, literal bytes and numbers.

What the code was found not to do:

- `?` or `+` behind a group around one item that already carries `*` gives the wrong content model: `(a*)?` is built as
  `a?` and `(a*)+` as `a+` (`ContentModels.OptionalStarBreaks`, `ContentModels.PositiveStarBreaks`). Everywhere else the
  tree is right; `ContentModels.SuffixExact` says exactly when it is, and by `ContentModels.CompileWithin` a wrong tree only
  ever rejects content.
- A name may hold U+FFFD: production 4 allows it, and the scanner for the document reads exactly the names of production 5
  (`Names.ParseName`). The scanner for stored text takes U+FFFD for ill-formed, so an entity can be declared that no
  replacement text can refer to (`EntityText.ReplacementRefused`, `AttributeExpansion.NameLost`). Within the limit on the
  length of names these are the only names it refuses (`EntityText.ReferenceAtExact`, `EntityText.ReferableExactly`).
- `CopyDoc` and `CopyNode` link children with `AddChild`, which merges neighbouring text nodes. The copy has the shape of the
  source exactly when no two texts stand side by side and attributes are distinct (`CopyTrees.CopyIsomorphic`; `CopyTrees.AdjacentTextsMerge` has an
  element with two texts whose copy has one child).
- The attribute-value walk does not look at what lies between an ampersand and the next semicolon, or behind an ampersand
  that no semicolon follows: with the entity text `&#<;` or `& <`, reached through another entity, it misses a `<`
  (`AttributeWfc.LessMissed`). Nothing is missed in text whose ampersands all start a reference by name or number
  (`AttributeWfc.WellFormedSighted`), and `AttributeWfc.SightedExactly` says exactly in which texts the hidden items make
  no difference: some `<` is in plain view, or there is none at all and every entity referenced out of view is also
  referenced in plain view.
- Where entities are replaced in an attribute value, a character reference to a tab or line break in replacement text comes
  out as a space; section 3.3.3 asks for the character (`AttributeExpansion.TabLost`). A reference in replacement text to
  an entity without content comes out as the name of the entity (`AttributeExpansion.EmptyNamed`). Apart from names with
  U+FFFD or over the length limit and from nesting over the depth limit, which are refused, there is no other difference
  (`AttributeExpansion.StreamedExactly`), and each of the two shows in the value, collapsed or not
  (`AttributeExpansion.ValueExactly`).
- `saturatedAdd` saturates as intended exactly for a second operand that is not negative
  (`EntityAccounting.SaturatedAddExact`); all callers pass such operands.

## Model

| member | source | states |
|---|---|---|
| `Dom.Tree.UnlinkNode` | node.go:816-871 | the node leaves its sibling list and stands alone; the other lists close up; the forest is kept; nil is a no-op |
| `Dom.Tree.AddChildPreflight` | node.go:575-600 | rejects exactly when the operand is the receiver or above it, and then changes nothing; otherwise the operand is detached |
| `Dom.Tree.AddSiblingPreflight` | node.go:690-716 | the same guard for siblings, against the anchor and its ancestors |
| `Dom.Tree.AddChild` | node.go:602-672 | for each receiver type the exact error; on error no link changes; under a container a text behind a last text is merged into it and detached, anything else is last among the children; a leaf keeps no children and takes only text into its content |
| `Dom.Tree.AddSibling` | node.go:718-787 | the operand becomes the last of the anchor's siblings, also when it stood in that list, or two texts merge |
| `Dom.Tree.Replace` | node.go:873-1051 | for every child list: the operands in the place of the node, without the places they had; the exact errors; the node ends detached exactly when it is no operand |
| `DomForest.ReplaceChildren` | node.go:873-1051 | the spliced sibling lists are, for every parent, (before without the operands) + operands + (after without the operands), or the list without the operands |
| `DomSplice.SpliceDone` | node.go:960-1051 | the pointer writes of `replaceNode` leave a forest whose list at that place is the spliced one |
| `Dom.Tree.constructor` | node.go:79-90 | nodes that have not been linked make a forest in which every node stands alone |
| `Dom.Tree.Run` | node.go:575-1051 | any run of accepted and rejected edits keeps the forest, and every node satisfies the laws of a forest stated on its links alone |
| `DomForest.NodeLawsHold` | node.go:575-1051 | sibling links are reciprocal, the parent enumerates the node, first and last are the true ends, no node is above itself |
| `Dom.Tree.ChildReaches` | node.go:485-509 | terminates on every link graph, with shared, foreign or cyclic links, and answers reachability by owned child links |
| `Dom.Tree.WouldCreateCycle` | node.go:460-471 | wherever the way up from the parent ends: true exactly when the node is on that way or reaches the parent downwards |
| `DomForest.CycleGuardInForest` | node.go:460-471 | in a forest the guard holds exactly for the parent and its ancestors |
| `Dom.Tree.Walk` | node.go:343-404 | on every finite link graph the visits and the way the walk ends are those of the recursive pre-order |
| `DomCycles.CycleExactly` | node.go:343-404 | with a visitor that never fails, a cycle is reported exactly when some downward trail meets itself or a child list repeats a child |
| `DomForest.WalkOfForest` | node.go:343-404 | on a forest the walk succeeds and visits the root and its descendants, each once, in document order: parents before children, siblings from left to right |
| `ContentModels.CompileCorrect` | parser_dtd_element.go:271-542 | the tree built for a model of any nesting has the language of section 3.2.1 of XML 1.0, unless `?` or `+` falls on a one-item group that carries `*` |
| `ContentModels.CompileWithin` | parser_dtd_element.go:271-542 | for every well-formed model, with no exception, the tree matches only what the model does |
| `ContentModels.GroupExactly` | parser_dtd_element.go:350-382 | a sequence matches one word of each item, in order; a choice what any item matches; for groups of any size |
| `ContentModels.TwoNames` | parser_dtd_element.go:350-382 | `(a,b)` matches an `a` and a `b` behind it and nothing else, the choice of both matches one of them |
| `ContentModels.SuffixExact` | parser_dtd_element.go:485-539 | for every group body and suffix, exactly when the rewritten tree has the language the suffix asks for |
| `ContentModels.OneItemGroupExact` | parser_dtd_element.go:485-539 | for a group around any item, exactly when the tree is right |
| `ContentModels.StrippedBetween` | parser_dtd_element.go:499-505 | dropping `?` and `*` down a choice spine loses nothing that a star around the choice does not give back |
| `ContentModels.StrippedAtBetween` | parser_dtd_element.go:521-532 | the same for the loop that starts at the last operator; if it finds a mark, the empty word was matched |
| `ContentModels.NullableExact` | parser_dtd_element.go:511-535 | matching the empty content can be read off the marks |
| `ContentModels.OptionalStarBreaks` | parser_dtd_element.go:485-494 | `(n*)?` is built as `n?`, which does not match two `n` |
| `ContentModels.PositiveStarBreaks` | parser_dtd_element.go:511-535 | `(n*)+` is built as `n+`, which does not match empty content |
| `Languages.FoldMarkExact` | parser_dtd_element.go:485-519 | for every language, when one mark stands for a mark and a suffix |
| `Languages.FoldMarkAlways` | parser_dtd_element.go:485-519 | one mark stands for two on all languages exactly when `?` or `+` does not fall on `*` |
| `Languages.RepExactly` | parser_dtd_element.go:485-519 | a mark allows none or one, any number, or at least one |
| `ContentModelText.ReadExactly` | parser_dtd_element.go:271-482 | text is read as a model exactly when it spells it by productions 47 to 50, with one kind of separator in each group and no deeper nesting than allowed |
| `ContentModelText.TokensRead` | parser_dtd_element.go:271-482 | commas and bars, `?`, `*` and `+`, read for what they are |
| `ContentParser.DeclParser.ParseElementChildren` | parser_dtd_element.go:271-542 | the recursive descent over the mutable cursor and nodes accepts what the grammar reads and leaves a tree that stands for it; older nodes are untouched |
| `ContentParser.DeclParser.AddOperator` | parser_dtd_element.go:350-382 | a new operator takes the waiting item and continues the right spine |
| `ContentParser.DeclParser.StripMarks` | parser_dtd_element.go:499-532 | the loop over `c1` and `c2` drops the marks the specification drops, and reports whether it found one |
| `ContentParser.ParseChildrenModel` | parser_dtd_element.go:120-140 | from text to tree: accepted exactly when the text spells a model; the tree matches only what the model does, and exactly that outside the failing family |
| `CharRefs.ReferenceExact` | parser_entity_ref.go:311-386 | a reference is read exactly when production 66 spells one of a character of the XML version, digits of any length, with its value and full width |
| `CharRefs.ParseStringCharRef` | parser_entity_ref.go:311-386 | the scanner over stored text computes that on 32-bit integers that never overflow |
| `CharRefs.Cursor.ParseCharRef` | parser_entity_ref.go:725-819 | the cursor scanner accepts the same references and consumes each to its end |
| `CharRefs.NeverShorter` | parser_entity_ref.go:311-386 | a reference is never shorter than the UTF-8 form of what it denotes |
| `CharRefs.CharValueExact` | parser_content.go:284-308 | the two range checks are the Char productions of XML 1.0 and 1.1 |
| `CharRefForms.CharExactly` | parser_content.go:284-308 | the characters of both XML versions, by what they leave out |
| `CharRefForms.FormsRead` | parser_entity_ref.go:311-386 | a character written in decimal or in either case of hexadecimal is read back, whatever follows |
| `CharRefForms.FormsRefused` | parser_entity_ref.go:311-386 | a number that is no character is never read |
| `Utf8.DecodeEncoded` | parser_entity_ref.go:392-428 | a rune that is written is read back |
| `Utf8.EncodeDecoded` | parser_entity_ref.go:392-428 | a rune that is read is written with the same bytes |
| `Utf8.Examples` | parser_entity_ref.go:392-428 | the worked examples of section 7 of RFC 3629 |
| `Names.ParseStringName` | parser_entity_ref.go:392-428 | what is read is exactly a name of production 5 without U+FFFD and within the limit, with a well-formed character that is none of a name behind it; the name written rune by rune is the text that was read |
| `Names.NameEndExact` | parser_entity_ref.go:392-428 | the same of the scanner's specification, for every name and position |
| `Names.ParseName` | parser_decl.go:403-485 | in the document what is read is exactly a name of production 5 within the limit |
| `Names.StartsNameExactly` | internal/xmlchar/xmlchar.go:35-43 | the characters a name may start with, by the ranges left out |
| `Names.ContinuesNameExactly` | internal/xmlchar/xmlchar.go:49-53 | what a name may hold and not start with |
| `EntityText.ReferenceAtExact` | parser_entity_ref.go:592-723 | a reference to an entity is read exactly where production 68 or 69 spells one whose name has no U+FFFD and is within the limit |
| `EntityText.ReferableExactly` | parser_decl.go:429-480 | of the names the document may declare, stored text can refer to exactly those without U+FFFD |
| `EntityText.ReplacementRefused` | parser_decl.go:551-557 | a name of production 5 to which no reference is read |
| `EntityText.LenientPiece` | parser_entity_ref.go:592-723 | having seen a parameter-entity reference never changes how well-formed text is read |
| `EntityExpansion.ExpandExact` | parser_entity_decl.go:194-310 | with any depth budget the expansion is `r` exactly when a derivation at most that deep yields `r`; a text has at most one derivation |
| `EntityExpansion.DeeperSame` | parser_entity_decl.go:194-197 | a result does not depend on how many levels are left |
| `EntityExpansion.ExpandsExactly` | parser_entity_decl.go:194-310 | in every mode, expansion succeeds exactly when no chain of references is longer than the levels allow or ends in ill-formed text, each text read with the parameter-entity references seen by then |
| `EntityExpansion.SeenExact` | parser_entity_ref.go:592-723 | after expansion a parameter-entity reference has been seen exactly when one was seen before or some chain of references leads to one |
| `EntityExpansion.CycleFails` | parser_entity_decl.go:194-310 | nothing that leads to a replacement text leading back to itself is ever expanded, whatever the depth limit |
| `EntityExpansion.LenientSame` | parser_entity_ref.go:680-723 | where strict lookups succeed, lenient ones give the same result |
| `EntityExpansion.WrittenIsPaid` | parser_entity_decl.go:226-305 | for entities not marked checked, the bytes written are at most the text and what is charged |
| `EntityValues.ValueExactly` | parser_entity_decl.go:194-310 | an entity value decodes to what section 4.5 of XML 1.0 makes of it, by recursion on character and parameter references with general ones bypassed, and is refused exactly when there is no such value or a chain of references leads to a refused name |
| `EntityEscapes.EscapesResolved` | entity.go:123-138 | exactly the five names of section 4.6 stand for a character, and which |
| `EntityEscapes.EscapedExpands` | parser_entity_decl.go:226-238 | any text, with the five characters written as references to the predefined entities, expands to itself |
| `EntityEscapes.EscapedDecodes` | parser_entity_decl.go:226-238 | and decodes to itself under any budget that lasts; without accounting always |
| `EntityAccounting.SaturatedAddExact` | parser_entity_ref.go:930-935 | on 64-bit integers the sum saturates as intended exactly for a second operand that is not negative |
| `EntityAccounting.WithinExact` | parser_entity_ref.go:961-998 | the ceiling and the ratio test amount to one largest size |
| `EntityAccounting.ChargedLiterally` | parser_entity_ref.go:937-998 | a charge adds the bytes and 20, and is refused above a thousand million, or above a million and over the ratio to the input |
| `EntityAccounting.GeneralCharges` | parser_entity_decl.go:226-260 | a reference to an internal entity leads to its content; what it is charged for, before and after |
| `EntityAccounting.ParameterCharges` | parser_entity_decl.go:262-305 | the same for a parameter entity, declared or not |
| `EntityAccounting.GeneralCost` | parser_entity_decl.go:226-260 | expanding a reference costs what its text costs, the bytes written and the fixed cost twice |
| `EntityAccounting.DecodeExact` | parser_entity_ref.go:937-998 | checking every charge as it is made comes to one check of the total; the bytes are those of the expansion |
| `EntityAccounting.OutputBounded` | parser_entity_decl.go:226-305 | a successful decoding writes at most its input and the growth of the counter, which stays under the ceiling |
| `EntityDecoder.Decoder.DecodeToSink` | parser_entity_decl.go:194-310 | into either sink: succeeds exactly when the text decodes on the budget and the result fits the cap, and never below 40 levels; the sink holds the result, normalised, and the counters move alike |
| `EntityDecoder.Decoder.DecodeString` | parser_entity_decl.go:176-185 | the string form returns the decoded bytes |
| `EntityDecoder.Decoder.EntityCheck` | parser_entity_ref.go:937-950 | a checked entity is charged its recorded size, any other the bytes given, and the fixed cost; it fails exactly over the limits |
| `EntityDecoder.Sink.Write` | parser_entity_decl.go:108-161 | all bytes or a failure at the cap, with TAB, CR and LF stored as spaces in attributes |
| `EntityDecoder.Sink.WriteRune` | parser_entity_decl.go:118-172 | a rune is stored like its bytes, and not at all if it does not fit |
| `AttributeWfc.Checker.Walk` | parser_element.go:1167-1227 | reports a violation exactly when one that stands in plain view is reachable through internal entities, and only such a one; where hidden items make no difference, exactly when one is reachable at all; what it walked is then clean through and through |
| `AttributeWfc.Checker.CheckEntity` | parser_element.go:1125-1136 | the same for an entity; flags are set only on entities that reach no violation in plain view, and after a clean verdict on the entity and everything it reaches |
| `AttributeWfc.Checker.CheckReferences` | parser_element.go:1010-1046 | over any series of references from the body, the flags never change a verdict, and no entity is walked twice |
| `AttributeWfc.Checker.ValidateDefaults` | parser_element.go:1246-1268 | the pass over attribute defaults fails exactly when one that has a reference reaches a violation |
| `AttributeWfc.ViolatesExactly` | parser_element.go:1167-1227 | a violation is a `<`, or a reference to an external, unparsed or missing entity, in the text or in one that a chain of references leads to |
| `AttributeWfc.RefersExactly` | parser_element.go:1195-1221 | a chain goes on at exactly the references that are declared as internal general entities and are none of the five |
| `AttributeWfc.SafeIsClosed` | parser_element.go:1167-1227 | an entity that reaches no violation is clean itself and refers only to such entities, through cycles and sharing |
| `AttributeWfc.ClosedReachesNothing` | parser_element.go:1167-1227 | clean texts that refer only to each other reach no violation |
| `AttributeWfc.ItemsInView` | parser_element.go:1172-1190 | in any text the scan finds exactly the `<` and the references that stand, byte by byte, behind no ampersand without a semicolon between |
| `AttributeWfc.ScannedExactly` | parser_element.go:1172-1190 | the scan looks at a byte exactly when it is in plain view |
| `AttributeWfc.WellFormedSighted` | parser_element.go:1172-1190 | in text cut into references by a name of production 5 or by number and text without ampersands nothing is missed |
| `AttributeWfc.SightedExactly` | parser_element.go:1167-1227 | the exact condition on a text under which, whatever is declared, violations in plain view are all there are |
| `AttributeWfc.LessMissed` | parser_element.go:1181-1190 | `&#<;` and `& <` hold a `<` that is missed, directly and through an entity |
| `AttributeValues.ParseAttributeValue` | parser_element.go:882-1104 | the one-pass form, with references streamed by the decoder under the cap, keeps the words of the value, and without references is already the collapsed value; it fails only where a reference cannot be replaced or the value with all its white space is over the cap |
| `AttributeNormalization.AttrNormalizeSpace` | parser_dtd_attr.go:348-382 | the second pass joins the words with single spaces |
| `AttributeValues.NormalizedValue` | parser_element.go:1327-1344 | white space is collapsed as section 3.3.3 of XML 1.0 asks for the type of the attribute, for any mix of text and references; the flag is set exactly when that changed the value |
| `AttributeValues.MissingCharged` | parser_entity_ref.go:1062-1075 | an undeclared entity writes nothing and costs 20 |
| `AttributeValues.TextKept` | parser_element.go:1038-1056 | a reference that is kept goes into the value as it stands, wherever it stands |
| `AttributeKept.KeptValue` | parser_element.go:940-965 | with entities not replaced, a value of characters, white space and character references reads back, reference by reference, as what section 3.3.3 asks for, of either type; every ampersand in it starts a reference to the ampersand |
| `AttributeKept.UnreplacedValue` | parser_element.go:1327-1344 | the value as it is read without replacing entities meets that |
| `AttributeExpansion.StreamedExactly` | parser_entity_decl.go:194-310 | replacement text that means `n` by section 3.3.3, by recursion through the entity table with names of production 5, is accepted exactly when no chain of references leads to a refused name or is longer than the levels; it comes into the value as `n` exactly when none leads to a character reference to a tab or line break or to a reference to an empty entity |
| `AttributeExpansion.StreamedMeans` | parser_entity_decl.go:194-310 | nothing is accepted that has no meaning by section 3.3.3 |
| `AttributeExpansion.MeansOnce` | parser_entity_decl.go:194-310 | a text has at most one meaning, whatever the depth it is taken to |
| `AttributeExpansion.NameLost` | parser_entity_ref.go:392-428 | replacement text that refers to a declared entity whose name holds U+FFFD has a meaning and is refused |
| `AttributeExpansion.ValueExactly` | parser_element.go:940-1045 | the same for whole values of either type: no difference is hidden by collapsing, and none makes up for another |
| `AttributeExpansion.AttributeValue` | parser_element.go:1327-1344 | the value as it is read, streamed and collapsed, meets section 3.3.3 exactly then |
| `AttributeExpansion.TabLost` | parser_entity_decl.go:162-172 | `&#9;` in replacement text is stored as a space |
| `AttributeExpansion.EmptyNamed` | parser_entity_decl.go:245-249 | `&e;` in replacement text is written as `e` where `e` is empty |
| `AttributeNormalization.CollapseIdempotent` | parser_dtd_attr.go:348-382 | normalising twice is normalising once |
| `AttributeNormalization.CollapseExactly` | parser_dtd_attr.go:348-382 | collapsing keeps every byte but a space, and a space exactly between two words, once |
| `Namespaces.LookupIsScope` | tree_namespaces.go:8-24 | the walk up the ancestors finds what the scope built from the outermost element inwards holds |
| `Namespaces.XmlBound` | tree_namespaces.go:8-24 | `xml` is bound to its namespace name without a declaration |
| `Namespaces.WithDeclExactly` | node.go:1222-1253 | a declaration of a new prefix is last; of a known one it takes the first slot of the prefix |
| `CopyTrees.CopyIsomorphic` | copy_deep.go:75-157 | names, expanded names, attributes, text and shape are kept exactly when links do not merge or no two texts stand side by side, and no two attributes of an element share their URI and local name or their prefix and local name |
| `CopyTrees.AdjacentTextsMerge` | copy_deep.go:75-103 | two texts side by side are one in a copy whose links merge, and two otherwise |
| `CopyTrees.NamespacesKept` | copy_deep.go:235-316 | in both modes every prefix resolves at every copied element as in the source, exactly when the source uses its prefixes consistently |
| `CopyTrees.LookupsKept` | copy_deep.go:235-316 | in a consistent document every ancestor walk on the copy finds what it finds in the source |
| `CopyTrees.ScopeMapIsWalk` | copy_deep.go:278-316 | the scope map handed down agrees with the ancestor walk on the finished copy at every element, for every source |
| `CopyTrees.ExactIsWellBound` | copy_deep.go:278-316 | in the exact mode the copy's own names are always in scope, even for a source where they are not |
| `CopyTrees.BoundLike` | copy_deep.go:247-316 | binding one element keeps the meaning of all prefixes exactly when its active namespace is in order |
| `CopyTrees.CopiedAttrsExact` | copy_deep.go:327-350 | attributes come through unchanged exactly when no two share their URI and local name or their prefix and local name |
| `CopyTrees.MatchesExactly` | element.go:124-129 | being taken for the same, on the fields: URI and local name, or qualified name |
| `CopyTrees.TwoPrefixes` | copy_deep.go:327-350 | `p:a` and `q:a` both come through unless they share the prefix or the URI |
| `CopyTrees.WithAttrExactly` | element.go:132-175 | an attribute unlike all others is last, one like another takes the place of the first such |
| `CopyTrees.OverDeclares` | copy_deep.go:247-272 | the prefixes declared on the copy are those of the source and that of an active namespace with a URI |
| `CopyTrees.ExactDeclares` | copy_deep.go:278-316 | the active namespace is in scope on the copy, and nothing is declared where it already was |
| `CopyTrees.CopyableExactly` | copy_deep.go:200-229 | which names the constructors take |
| `CopyTrees.DecodedExactly` | document.go:1112-1135 | a reference node is named without ampersand and semicolon |
| `DeepCopy.Document.BindNamespacesExact` | copy_deep.go:278-316 | the element gets the bindings of the specification; the scope map passed in is only read, the child map is that one or a fresh one |
| `DeepCopy.Document.BindNamespacesOverDeclare` | copy_deep.go:247-272 | the own declarations, and the active namespace unless its prefix is declared |
| `DeepCopy.Document.CopyElement` | copy_deep.go:200-229 | the nodes built hold the specified copy, in nodes of their own; no older node changes; it fails exactly on a name a constructor refuses |
| `DeepCopy.Document.CopyChildren` | copy_deep.go:75-103 | the children of the copy are the copied children, linked in the chosen way |
| `DeepCopy.Document.CopyLookups` | copy_deep.go:278-316 | on the finished nodes the ancestor walk finds what the scope map held, and what it finds in a consistent source |
| `DeepCopy.Document.AddNamespaceDecl` | node.go:1222-1253 | a prefix keeps one slot; refused exactly when the element uses the prefix with another URI |
| `DeepCopy.Document.AddProperty` | element.go:132-175 | an attribute that shares its URI and local name or its qualified name with none is appended; otherwise it replaces the first that shares either; all others stay |
| `DeepCopy.Document.LookupNSByPrefix` | tree_namespaces.go:8-24 | the innermost declaration of the prefix on the way up, or the implicit one of `xml` |
| `InputScopes.BalancedRestores` | parserctx.go:394-448 | a run of pushes and pops that never goes below its starting depth and returns to it restores base URI, version and inputs |
| `InputScopes.BalancedCallsRestore` | parserctx.go:394-573 | the same for uses of the input stack, whether or not the references among them are let through |
| `InputScopes.InputStack.PushExternalPEInput` | parserctx.go:440-448 | a base URI or version that is given is in force, else the old one; the input is on top; the three scope stacks and the counts stay those of one stack of frames |
| `InputScopes.InputStack.PopInput` | parserctx.go:544-573 | the scopes made for the removed input, and only those, are undone |
| `InputScopes.InputStack.ReferExternalPE` | parser_dtd_subset.go:637-663 | refused exactly when the entity is being read; no external parameter entity is on the stack twice |
| `InputScopes.InputStack.Run` | parserctx.go:394-573 | any run of pushes, references and pops leaves the state the frames say, with no external parameter entity on the stack twice; a balanced one restores base URI, version and inputs |
| `InputScopes.ParseInputs` | parserctx.go:394-573 | from an empty stack, so does every run |
| `InputScopes.TopScopes` | parserctx.go:544-573 | comparing the topmost scope's input by identity tells whether the removed input has one |
| `NamespaceStack.Parser.StartTag` | parser_element.go:513-569 | every prefix is as with all declarations pushed; with cleaning, those pushed are declarations of the tag in their order, no specified one repeats the binding in force, and each left out did; without, all are pushed |
| `NamespaceStack.Parser.EndTag` | parser_element.go:834-846 | the parent's bindings are back exactly |
| `NamespaceStack.Parser.Run` | parser_element.go:513-846 | with and without cleaning, after any run of tags every prefix resolves as in all declarations of the open elements; with it, no redundant binding is ever on the stack |
| `NamespaceStack.NestedRestores` | parser_element.go:834-846 | a well-nested run leaves the open elements as it found them |
| `NamespaceStack.Parser.Lookup` | stack.go:70-83 | the innermost binding of a prefix |
| `IgnoredSections.SkipExact` | parser_dtd_subset.go:345-385 | the depth counter accepts exactly the contents of production 64 and the matching terminator, for any nesting and any run of brackets |
| `IgnoredSections.Delimiters` | parser_dtd_subset.go:345-385 | `]]>` ends a section, `<![` opens one |
| `IgnoredSections.LiteralExactly` | parser_content.go:248-260 | the characters that may stand in a section, by what is left out in each XML version |
| `IgnoredSections.SkipIgnored` | parser_dtd_subset.go:345-385 | the loop stops where the specification stops |
| `TextSlab.Document.CreateText` | document.go:686-721 | the new node holds a copy of the value, in bytes of its own; no other node changes |
| `TextSlab.Document.AppendText` | node_leaf.go:311-317 | the node holds what it held and the new bytes; no other node changes |
| `TextSlab.Document.GrowOwnedTextContent` | document.go:723-739 | room for the new bytes, apart from all other nodes; the same buffer if there was room, else one of the size needed, twice the old or 64, whichever is largest |
| `TextSlab.Document.AllocTextContent` | document.go:706-721 | the slice is in bounds and apart from every node and from what is still free; it is cut from the slab, from a new one of 65536 bytes, or stands alone if it is larger |
| `TextSlab.Document.Run` | document.go:686-739 | under any interleaving each node holds just what was put into it |

## Left out

- CompileCorrect: equality in one direction for whole models, because a wrong group can be hidden by a star around it; `CompileWithin` holds of all, and the exact condition is stated per suffix and per one-item group (`SuffixExact`, `OneItemGroupExact`).
- LenientSame: one direction; a strict lookup fails on purpose where a lenient one skips an undeclared entity.
- WrittenIsPaid: for entities already marked checked the recorded size is charged, which bounds nothing here.
- CheckReferences: the declarations are fixed; the provisional flags set while the DTD is being read are only shown not to be trusted in the body.
- NamespacesKept: lookups with several declarations of one prefix on one element are covered by the scope, not by the ancestor walk.
- The attribute chain in the tree model, Document and Attribute nodes as children, Entity children under an EntityRef, and the `UnsafeSet*` setters.
- `Walk` and its operands are nodes; the errors for a nil node or a nil visitor are not modelled. Visitors are functions of the visits so far.
- `fromCharRef`, `SetTreeDoc`, owning documents and their escape marks.
- Mixed content models, the `parent` pointers of content nodes, parameter entities inside content models and the same-input check.
- Names in content models are single tokens; the characters of names are modelled for entity references and for `parseName`, not for its NCName and Nmtoken variants.
- Loading of external parameter entities: their text is part of the table. SAX handlers that answer differently from the table, warnings, the `valid` flag and the standalone check on entities declared externally.
- ParseAttributeValue: a failure at the cap bounds the value from one side, because spaces that are trimmed at the end count as well; the fast scan for simple values is not modelled.
- ValueExactly: which token a reference becomes is given (predefined, kept, undeclared or replaced); the lookups of `parseEntityRef` are modelled for the walk and for nested references only.
- Copying of DTDs, the ID table, line numbers, the `omit`, `enterElement` and `onCopy` hooks, and document-level children; a boolean attribute is not told from one with an empty value.
- A prefix declared twice in one start tag, which is an error. The reserved prefix `xml` is never pushed on the namespace stack and does not occur in its runs.
- The input cursors themselves, `getCursor`, and inputs pushed twice.
- Ill-formed UTF-8 in ignored sections: the loop is modelled on decoded characters.
- Chunk pools and `Free`.
