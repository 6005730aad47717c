# UML class-diagram editor: a Dafny model

This project models the core of a browser-based UML class-diagram editor
written in TypeScript with React and reactflow. Users draw classes and
interfaces as nodes and draw typed relationships between them as edges.
They edit members in place on a node or in a dialog, and turn the diagram
into code text. A separate importer reads Java-like text back into nodes
and edges.

The model covers:

- **The entity records** (`src/types/nodeData.ts`). `NodeData`, `Property`,
  `Method` and `Parameter` are datatypes. `Visibility`, `NodeType` and
  `ConnectionType` are closed enumerations with their string values and
  the visibility symbols (module `Types`).
- **Two renderers that disagree.**
  - The Compile button's `compileUmlToCode` (module `CodeFlow`) reads
    outgoing edges and target names. It always writes `class`.
  - `CodeGenerator.generateTypeScriptCode` (module `CodeGenerator`) reads
    incoming edges and source names. It maps Implementation to `extends`
    and Inheritance to `implements`.
- **The Java-text importer** `parseJavaCode` (modules `CodeToUml`,
  `ImportFacts`, `DeclarationFacts`):
  - comment removal, blank collapsing and trimming;
  - the class pattern, as a hand-written recogniser over the normalised
    text, with the regular expression's leftmost-match and
    optional-group-first behaviour;
  - the split of a body into declarations;
  - the method and property patterns, `parseParameters` and
    `parseVisibility`;
  - `convertToNodesAndEdges`.
- **The canvas's connection flow** (module `CodeFlow`):
  - `onConnect` with its swap rule and the `isValidConnection` gate;
  - the pending connection that a kind selection turns into one edge, or
    a cancel drops;
  - payload replacement by id, `addNode` and `duplicateNode`.

  The kind menu that drives the flow is in module `ConnectionTypeSelector`.
- **Member editing.** Module `MemberEdits` holds the field, member and
  list edits that the two editors share. The node component's in-place
  editing is in `UmlNode`, together with its handle ids and one-line
  display formatters. `UmlNodeAsWritten` models the same editing with the
  row objects shared with the parent's node, as the component has them. The edit dialog, with its save-time filter of
  unnamed members, is in `NodeEditDialog`, and the parameter popover is in
  `ParameterEditor`.
- **Cross-file facts** (module `EditorFacts`):
  - no handle a node renders triggers the canvas's swap rule;
  - imported edges are invisible to both renderers;
  - the two renderers read one edge in opposite directions;
  - the kind menu drives the pending connection.

Edge kinds are kept as plain strings, since reactflow's `data.connectionType`
is untyped. Because of this, the importer's lower-case `inheritance` and
`implementation` can be told apart from the `ConnectionType` labels.
Identifier generation (nanoid) and random placement become parameters: a
fresh id, or a position.

The code has no relationship legality rules, no duplicate-edge rejection,
no member synthesis on composition or aggregation and no reconciliation
on deletion. Edge deletion only logs
(`src/components/codeflow/CodeFlow.tsx:503`), and selecting a kind appends
the edge unconditionally. The model follows the code.

## Model

| member | source | states |
|---|---|---|
| Types.VisibilityTables | src/types/nodeData.ts:37-47 | There are exactly three visibilities, listed once each. Their string values are pairwise different. Their symbols are one character each and pairwise different, so the symbol table is total and injective. |
| Types.KindTagLowered | src/types/nodeData.ts:49-53 | Lower-casing the tags `CLASS`, `INTERFACE` and `ENUM` gives the keywords `class`, `interface` and `enum`. |
| Types.LabelToConnectionType | src/types/nodeData.ts:55-61 | The lookup of a connection kind by its label finds a kind with exactly that label. It finds none only when no kind has that label. |
| Types.ConnectionTypeTables | src/types/nodeData.ts:55-61 | There are five connection kinds, listed once each, with pairwise-distinct labels. The label lookup inverts the labelling. |
| Strings.Trim | src/utils/codeToUml.ts:35 | `trim()` returns a contiguous slice of its input with no white space at either end. |
| Strings.ToLower | src/utils/codeToUml.ts:108 | Lower-casing keeps the length and maps each character on its own. |
| Strings.JoinSplit | src/utils/codeToUml.ts:58 | Joining the pieces of a one-character split with that character gives the text back. |
| Strings.SplitJoin | src/utils/codeToUml.ts:101 | Splitting a join whose separator starts with the split character gives the pieces back, each later piece prefixed by the rest of the separator. |
| Strings.NatToStringInjective | src/components/codeflow/UmlNode.tsx:92-154 | Different numbers render as different decimal strings. This keeps the handle ids `source-${i}` and `target-${i}` apart. |
| Strings.DecimalRoundTrip | src/components/codeflow/UmlNode.tsx:92-154 | Reading back a number's decimal rendering gives the number. |
| Seqs.RemoveAt | src/components/codeflow/UmlNode.tsx:264-268 | `splice(i, 1)` removes exactly element `i` and keeps the rest in order. As a multiset, the result plus that element is the input. An index past the end removes nothing. |
| Seqs.FilterMembership | src/components/codeflow/NodeEditDialog.tsx:101-102 | An element survives `filter` exactly when it was in the list and is kept. |
| Seqs.FilterAppend | src/components/codeflow/NodeEditDialog.tsx:101-102 | Filtering distributes over concatenation, so survivors keep their relative order. |
| CodeGenerator.FindName | src/services/codeGenerator.ts:9 | The lookup finds no name exactly when no node has the id. Otherwise it returns the name of a node with that id. |
| CodeGenerator.IncomingNamesMembership | src/services/codeGenerator.ts:7-15 | A name is in a node's clause exactly when some edge into the node with that kind has a source node of that non-empty name. Edges from unknown sources and nameless sources add nothing. |
| CodeGenerator.IncomingNamesAppend | src/services/codeGenerator.ts:7-15 | The clause built from a concatenation of edge lists is the concatenation of the clauses, so clause order follows edge order. |
| CodeGenerator.IncomingNames | src/services/codeGenerator.ts:7-15 | A node's clause has at most one entry per edge, and no entry is empty, since `filter(Boolean)` drops unknown sources and empty names. Which names appear is stated by `CodeGenerator.IncomingNamesMembership`. |
| CodeGenerator.InheritanceTextShape | src/services/codeGenerator.ts:17-20 | An empty clause is left out. `extends …` always comes before `implements …`, and when both are present they are joined by one space. |
| CodeGenerator.GeneratedBlocks | src/services/codeGenerator.ts:6-29 | The output is one block per node, in node order, joined by a blank line. Each block opens with a line break, the lower-cased kind, the node's name and a blank. |
| CodeGenerator.GenerateTypeScriptCode | src/services/codeGenerator.ts:5-30 | No nodes give no text. Otherwise the text opens with a line break, the first node's lower-cased kind and its name. The block structure is stated by `CodeGenerator.GeneratedBlocks`. |
| CodeGenerator.IgnoredEdgeChangesNothing | src/services/codeGenerator.ts:7-15 | Inserting anywhere an edge that no clause reads leaves the output unchanged. Such an edge is one of another kind, or one whose source is no node or has no name. |
| CodeGenerator.ParseTypeScriptCode | src/services/codeGenerator.ts:32-36 | The placeholder parser returns no entities for any text. |
| CodeFlow.FindIndex | src/components/codeflow/CodeFlow.tsx:272 | `findIndex` fails exactly when no node has the id. Otherwise it gives the first node that does. |
| CodeFlow.TargetEntry | src/components/codeflow/CodeFlow.tsx:134-135 | An edge's target entry is the name of a node with that id. When there is none, it is the empty string that `join` prints for `undefined`. |
| CodeFlow.OutgoingEntries | src/components/codeflow/CodeFlow.tsx:133-135 | A node's list has at most one entry per edge. Which entries appear is stated by `CodeFlow.OutgoingEntriesMembership`. |
| CodeFlow.OutgoingEntriesMembership | src/components/codeflow/CodeFlow.tsx:133-135 | An entry is in a node's list exactly when some edge leaving the node with that kind has it as its target entry. |
| CodeFlow.CompiledBlocks | src/components/codeflow/CodeFlow.tsx:130-154 | The Compile text is one block per node, concatenated in node order. Each block starts `class <name> `, whatever the node's kind, and ends `}` plus a line break. |
| CodeFlow.CompileUmlToCode | src/components/codeflow/CodeFlow.tsx:130-154 | An empty canvas compiles to nothing. Otherwise the text opens `class <first node's name> `, whatever that node's kind. The block structure is stated by `CodeFlow.CompiledBlocks`. |
| CodeFlow.CompileIgnoresUnreadFields | src/components/codeflow/CodeFlow.tsx:137-149 | Two canvases that differ only in what Compile does not read compile to the same text. Those fields are node kinds, positions, `isFinal`, `initialValue` and `insideCode`. |
| CodeFlow.OnConnect | src/components/codeflow/CodeFlow.tsx:156-188 | Without both endpoints on the canvas nothing changes. Otherwise the connection becomes pending, with endpoints swapped exactly when the source handle starts with `top` or the target handle with `bottom`. The handles are never swapped, and nodes and edges are untouched. |
| CodeFlow.IsValidConnection | src/components/codeflow/CodeFlow.tsx:190-196 | The gate admits a connection exactly when it is no self-loop and `onConnect` would not reverse it, that is, it is not drawn from a `top` source handle or to a `bottom` target handle. |
| CodeFlow.ValidIffNotSelfLoopNorReversed | src/components/codeflow/CodeFlow.tsx:190-196 | The gate admits a connection exactly when it is no self-loop and is not drawn from a top source or to a bottom target. |
| CodeFlow.Select | src/components/codeflow/CodeFlow.tsx:250-264 | With a pending connection, exactly one edge is appended. It carries the pending endpoints and handles, the chosen kind's label and the fresh id, and the pending state clears. Without one, nothing changes. |
| CodeFlow.Cancel | src/components/codeflow/CodeFlow.tsx:266-268 | Cancel clears the pending connection and leaves nodes and edges as they were. |
| CodeFlow.NodeChange | src/components/codeflow/CodeFlow.tsx:270-278 | The payload of the first node with the new payload's id is replaced. The list is unchanged when no node has that id. Length, ids and positions are always kept. |
| CodeFlow.AddNode | src/components/codeflow/CodeFlow.tsx:317-346 | One node is appended at the given position, and the existing nodes are kept. Its node id and payload id are the fresh id, its kind is the requested one and its name is `MyClass`. It holds exactly the private, non-static property `id: string` and the public, non-static method `getId(): string` with no parameters. |
| CodeFlow.DuplicateNode | src/components/codeflow/CodeFlow.tsx:372-397 | Without a selection nothing changes. Otherwise one copy of the selected payload is appended, under the fresh id, named `<name>_copy` and moved by (50, 50). |
| CodeFlow.ConnectedPreserved | src/components/codeflow/CodeFlow.tsx:156-346 | Connecting, selecting, cancelling, replacing a payload, adding a node and duplicating a node keep every edge and the pending connection between nodes on the canvas. |
| CodeToUml.StripBlockComments | src/utils/codeToUml.ts:16 | Removing `/*…*/` comments never lengthens the text. |
| CodeToUml.StripLineComments | src/utils/codeToUml.ts:17 | Removing `//…` comments never lengthens the text. |
| CodeToUml.CollapseSpace | src/utils/codeToUml.ts:18 | After collapsing, no two blanks are adjacent and every blank is a single space. Non-empty text stays non-empty and starts with a blank exactly when the input did. The non-blank characters are kept, in order. |
| CodeToUml.Normalize | src/utils/codeToUml.ts:15-19 | Normalised text is single-spaced and starts and ends with no blank. Its non-blank characters are exactly those of the comment-free text, in order. |
| CodeToUml.MatchClassAt | src/utils/codeToUml.ts:22 | A class match has a word as its name, a word as its optional `extends` target, a non-empty implements text and a non-empty body without `}`. It ends inside the text. |
| CodeToUml.ScanClasses | src/utils/codeToUml.ts:25-60 | Every class the repeated search finds has a word as its name and a non-empty body without `}`. |
| CodeToUml.MethodPosition | src/utils/codeToUml.ts:66-67 | `match` finds the leftmost position where the method pattern matches, and no earlier position matches. When it finds none, no position matches. |
| CodeToUml.PropertyPosition | src/utils/codeToUml.ts:83-84 | `match` finds the leftmost position where the property pattern matches, and no earlier position matches. When it finds none, no position matches. |
| CodeToUml.ParseVisibility | src/utils/codeToUml.ts:107-114 | An absent visibility gives public. |
| CodeToUml.ParameterFrom | src/utils/codeToUml.ts:102-103 | A parameter's type and name hold no white space. |
| CodeToUml.ParseParameters | src/utils/codeToUml.ts:98-105 | Blank text gives no parameters. Otherwise there is one parameter per comma-separated piece. |
| CodeToUml.ParseMethodDeclaration | src/utils/codeToUml.ts:65-80 | A parsed method has a word as its name and its return type, is not final and has no code. |
| CodeToUml.ParsePropertyDeclaration | src/utils/codeToUml.ts:82-96 | A parsed property has a word as its name and its type, is not final and has no initial value. |
| CodeToUml.Declarations | src/utils/codeToUml.ts:34-36 | Each declaration of a body is non-empty and contains no `;`. |
| CodeToUml.DeclarationMembers | src/utils/codeToUml.ts:38-50 | A declaration yields at most one member. With `(` it can only be a method, without `(` only a property. |
| CodeToUml.ParseDeclarations | src/utils/codeToUml.ts:38-50 | A declaration list yields no more members than it has declarations, and every parsed property and method is named by a word, with a word as its type or return type. Order and independence are stated by `ImportFacts.ParseDeclarationsAppend` and `ImportFacts.ParseDeclarationsOne`. |
| CodeToUml.ParsedClasses | src/utils/codeToUml.ts:13-60 | The importer keeps one parsed class per class the search finds in the cleaned text, in order. Each has a word as its name and is a class or an interface, never an enum. |
| CodeToUml.ToParsedClass | src/utils/codeToUml.ts:52-59 | A parsed class keeps the matched name and `extends` target. It is an interface exactly when the keyword was `interface`, and a class otherwise, so never an enum. Its properties and methods are those parsed from the body's declarations. Its implemented names are the trimmed comma-separated pieces of the implements text, or none without that text. |
| CodeToUml.ClassEdges | src/utils/codeToUml.ts:140-160 | A class contributes one edge for a non-empty `extends` target plus one per implemented name. |
| CodeToUml.ConvertEdges | src/utils/codeToUml.ts:140-161 | Every edge the classes produce has no handles and the kind string `inheritance` or `implementation`. Which edges appear is stated by `ImportFacts.ConvertEdgesMembership`. |
| CodeToUml.ConvertNodes | src/utils/codeToUml.ts:121-138 | There is one node per class, in order. The node's id, payload id and name are the class name, and it carries the class's kind and members. Node `k` sits at (300·k, 100·k). |
| CodeToUml.ParseJavaCode | src/utils/codeToUml.ts:13-63 | The importer gives one node per class the search finds, in order. Each node's id is the class name, its name is its id, and it is never an enum. Every edge has no handles and a lower-case kind string. That edges start at produced nodes is stated by `ImportFacts.ParseJavaCodeShape`. |
| ClassFacts.ClassDeclarationReads | src/utils/codeToUml.ts:22 | A well-written `class` or `interface` declaration, with or without `extends` and `implements` clauses, is matched by the class pattern where it starts. The match captures exactly the written keyword, name, superclass, implements text (with the blank before the brace) and body, and ends right after the closing brace. |
| ClassFacts.ScanReadsJoined | src/utils/codeToUml.ts:25-60 | From where well-written declarations joined by single blanks begin, the repeated search finds exactly one match per declaration, in order, each ending where its declaration ends. |
| ClassFacts.ScanReadsDeclarations | src/utils/codeToUml.ts:25-60 | On text made of well-written declarations joined by single blanks, the search finds as many matches as declarations, and match `k` captures exactly declaration `k`. |
| ClassFacts.NamesAreImplementsList | src/utils/codeToUml.ts:22 | Word names joined by `, ` are text that the implements group accepts. |
| ClassFacts.ImplementsSplit | src/utils/codeToUml.ts:58 | Names joined by `, `, as captured with the blank before the brace, split on commas and trimmed, give back exactly the names. |
| ClassFacts.DeclarationsJoin | src/utils/codeToUml.ts:34-36 | Trimmed, non-empty declarations without `;`, joined by `; `, split back into exactly those declarations. |
| ClassFacts.ParsedClassReadsBack | src/utils/codeToUml.ts:52-59 | A class read from a well-written declaration has the written name, kind and superclass. It implements exactly the listed names, and its members are those parsed from the written declarations. |
| ClassFacts.ParsedClassesOfDeclarations | src/utils/codeToUml.ts:13-60 | Code whose normalised text is well-written declarations joined by blanks imports exactly one class per declaration, in order, each parsed from that declaration's own parts. |
| ImportFacts.NormalizeKeepsNormalText | src/utils/codeToUml.ts:15-19 | Text that is already normal and contains no `/` is left as it is by normalisation. |
| ImportFacts.BlockCommentRemoved | src/utils/codeToUml.ts:16 | A `/*…*/` comment after comment-free text is removed up to its first `*/`, and nothing else changes. |
| ImportFacts.LineCommentRemoved | src/utils/codeToUml.ts:17 | A `//` comment is removed up to, but not including, the next line terminator, and nothing else changes. |
| ImportFacts.ParseVisibilityRoundTrip | src/utils/codeToUml.ts:107-114 | Every visibility's string value parses back to that visibility. |
| ImportFacts.ParseVisibilityIgnoresCase | src/utils/codeToUml.ts:108 | Parsing a visibility word does not depend on letter case. |
| ImportFacts.ConvertEdgesMembership | src/utils/codeToUml.ts:121-161 | An edge is produced exactly when some class contributes it. |
| ImportFacts.ClassEdgesMembership | src/utils/codeToUml.ts:140-160 | An edge belongs to a class exactly when it is the `<name>-<extends>-inheritance` edge for a non-empty `extends` target or a `<name>-<impl>-implementation` edge for an implemented name, each leading from the class to the named target. |
| ImportFacts.ConvertedEdgesWellFormed | src/utils/codeToUml.ts:116-164 | Every produced edge starts at a produced node. Its kind string is `inheritance` or `implementation`, and it has no handles. |
| ImportFacts.ParseDeclarationsAppend | src/utils/codeToUml.ts:38-50 | The members parsed from a concatenation of declaration lists are the concatenations of the members of each part. Properties and methods each stay in declaration order. |
| ImportFacts.ParseDeclarationsOne | src/utils/codeToUml.ts:38-50 | A single declaration with `(` adds just its parsed method, if any. One without `(` adds just its parsed property, if any. One that fails to parse adds nothing and does not stop the rest. |
| ImportFacts.ParseJavaCodeShape | src/utils/codeToUml.ts:13-63 | The importer yields one node per class found, with id and name equal to the class's word name. No node is an enum, and node `k` sits at (300·k, 100·k). Every edge starts at a node, has a lower-case kind string and has no handles. |
| DeclarationFacts.PropertyRoundTrip | src/utils/codeToUml.ts:82-96 | `<visibility> [static] <type> <name>` parses back to that property, with `isFinal` false and no initial value. |
| DeclarationFacts.ParametersRoundTrip | src/utils/codeToUml.ts:98-105 | A written list of `<type> <name>` parameters, separated by `, ` and with at most one trailing blank, parses back to the parameters. |
| DeclarationFacts.MethodRoundTrip | src/utils/codeToUml.ts:65-80 | `<visibility> [static] <type> <name>(<parameters>)…` parses back to that method, with `isFinal` false and no code, whatever follows `)`. |
| DeclarationFacts.BareMethodReadsVoid | src/utils/codeToUml.ts:65-80 | `<name>(<parameters>)…` with no modifier and no return type parses as a public, non-static method returning `void`. |
| MemberEdits.SetField | src/components/codeflow/UmlNode.tsx:31-39 | `handleInputChange(field, value)` makes that field hold the value and keeps every other field, including id and kind. |
| MemberEdits.SetFieldLaws | src/components/codeflow/UmlNode.tsx:31-39 | Writing a value a field already holds changes nothing. Of two writes to one field the later wins. Writes to different fields commute. |
| MemberEdits.ApplyPropertyEdit | src/components/codeflow/UmlNode.tsx:237-262 | A property edit makes its field hold the value and leaves the property's other fields as they were. |
| MemberEdits.PropertyEditLaws | src/components/codeflow/UmlNode.tsx:237-262 | Writing a value a property field already holds changes nothing. Of two writes to one field the later wins. Writes to different fields commute. |
| MemberEdits.EditProperty | src/components/codeflow/UmlNode.tsx:55-59 | An edit at index `i` changes only property `i`, and only in the edited field. Every other property and node field is kept. |
| MemberEdits.AppendProperty | src/components/codeflow/UmlNode.tsx:183-186 | Adding a property appends it at the end and keeps the existing properties and the rest of the node. |
| MemberEdits.DeleteProperty | src/components/codeflow/UmlNode.tsx:264-268 | Deleting property `i` removes exactly that property and keeps the others in order. An index past the end changes nothing. |
| MemberEdits.DeleteAppendedProperty | src/components/codeflow/UmlNode.tsx:183-186 | Deleting the property just appended gives the node back. |
| MemberEdits.ApplyMethodEdit | src/components/codeflow/UmlNode.tsx:349-374 | A method edit makes its field hold the value and leaves the method's other fields as they were. |
| MemberEdits.MethodEditLaws | src/components/codeflow/UmlNode.tsx:349-374 | Writing a value a method field already holds changes nothing. Of two writes to one field the later wins. Writes to different fields commute. |
| MemberEdits.EditMethod | src/components/codeflow/UmlNode.tsx:61-65 | An edit at index `i` changes only method `i`, and only in the edited field. Every other method and node field is kept. |
| MemberEdits.AppendMethod | src/components/codeflow/UmlNode.tsx:293-302 | Adding a method appends it at the end and keeps the existing methods and the rest of the node. |
| MemberEdits.DeleteMethod | src/components/codeflow/UmlNode.tsx:392-396 | Deleting method `i` removes exactly that method and keeps the others in order. An index past the end changes nothing. |
| MemberEdits.DeleteAppendedMethod | src/components/codeflow/UmlNode.tsx:293-302 | Deleting the method just appended gives the node back. |
| UmlNode.HandleGroup | src/components/codeflow/UmlNode.tsx:92-154 | A handle group is `count` consecutive handles of one role and side, numbered from `first`. |
| UmlNode.HandleInventory | src/components/codeflow/UmlNode.tsx:92-154 | A node renders 80 pairwise-distinct handles. They are 20 target handles and 20 source handles on top, and 20 source handles and 20 target handles on the bottom, numbered as the component numbers them. |
| UmlNode.HandleIdInjective | src/components/codeflow/UmlNode.tsx:92-154 | Two handles with the same id are the same handle. |
| UmlNode.HandleIdsDistinct | src/components/codeflow/UmlNode.tsx:92-154 | The 80 handle ids are pairwise distinct. Each starts with `source-` exactly when it is a source handle and with `target-` exactly when it is a target handle. |
| UmlNode.Header | src/components/codeflow/UmlNode.tsx:170 | The read-only header starts with the kind tag and a blank. |
| UmlNode.HeaderDetermines | src/components/codeflow/UmlNode.tsx:170 | Equal headers mean equal kinds and names. |
| UmlNode.PropertyLine | src/components/codeflow/UmlNode.tsx:274 | A property line starts with the visibility symbol. It ends with `)` exactly when the property is static, the `(static)` mark. |
| UmlNode.PropertyLineDetermines | src/components/codeflow/UmlNode.tsx:274 | For names without `:`, equal property lines mean equal visibility, name, type and static flag. |
| UmlNode.MethodLine | src/components/codeflow/UmlNode.tsx:401 | A method line starts with the visibility symbol. It ends with `)` exactly when the method is static. |
| UmlNode.MethodLineDetermines | src/components/codeflow/UmlNode.tsx:401 | Two method rows that read the same have the same visibility, name, parameter text, return type and static flag, as long as the names have no `(` and the parameter texts no `)`. |
| UmlNode.Mount | src/components/codeflow/UmlNode.tsx:26-29 | A node starts out of edit mode, with the popover closed, no method selected, and the node as its edit copy. |
| UmlNode.StartEdit | src/components/codeflow/UmlNode.tsx:431-433 | The edit button enters edit mode and changes nothing else. |
| UmlNode.Save | src/components/codeflow/UmlNode.tsx:45-48 | Save hands the edit copy to the parent and leaves edit mode with the copy unchanged. |
| UmlNode.Cancel | src/components/codeflow/UmlNode.tsx:50-53 | Cancel resets the edit copy to the parent's node, leaves edit mode, and hands nothing up. |
| UmlNode.CancelForgetsEdits | src/components/codeflow/UmlNode.tsx:50-53 | In the intended model, where the edit copy shares nothing with the parent's node, the state after cancelling does not depend on any edits made, and the copy is the one a fresh mount would show. The code as written differs; see Findings. |
| UmlNode.InputChange | src/components/codeflow/UmlNode.tsx:31-39 | A field change applies to the edit copy only. The rest of the component state is kept. |
| UmlNode.ChangeProperty | src/components/codeflow/UmlNode.tsx:237-262 | A row edit stores the edited property list in the copy, so only property `i` changes, and only in one field. |
| UmlNode.ChangeMethod | src/components/codeflow/UmlNode.tsx:349-374 | A row edit stores the edited method list in the copy, so only method `i` changes, and only in one field. |
| UmlNode.AddProperty | src/components/codeflow/UmlNode.tsx:183-186 | The add button appends a blank public, non-static property to the copy. |
| UmlNode.AddMethod | src/components/codeflow/UmlNode.tsx:293-302 | The add button appends a blank public, non-static method with no parameters to the copy. |
| UmlNode.RemoveProperty | src/components/codeflow/UmlNode.tsx:264-268 | The delete button removes property `i` from the copy. |
| UmlNode.RemoveMethod | src/components/codeflow/UmlNode.tsx:392-396 | The delete button removes method `i` from the copy. |
| UmlNode.AddThenRemove | src/components/codeflow/UmlNode.tsx:183-186 | Adding a member and deleting it straight away restores the state. |
| UmlNode.OpenParameters | src/components/codeflow/UmlNode.tsx:67-70 | Opening the popover on method `i` selects it and leaves the copy unchanged. |
| UmlNode.CloseParameters | src/components/codeflow/UmlNode.tsx:72-75 | Closing the popover forgets the selection and leaves the copy unchanged. |
| UmlNode.ParameterChange | src/components/codeflow/UmlNode.tsx:77-84 | The selected method, and only that one, takes the given parameters. Without a selection the copy is kept. The popover always closes. |
| UmlNode.OpenThenChangeParameters | src/components/codeflow/UmlNode.tsx:67-84 | Opening on method `i` and then handing back a list gives method `i` exactly those parameters. Every other member and the name are kept, and the popover ends closed. |
| UmlNode.EditsKeepIdentity | src/components/codeflow/UmlNode.tsx:31-84 | No in-place edit changes the node's id or kind, so the saved copy replaces the right canvas node. |
| UmlNodeAsWritten.Begin | src/components/codeflow/UmlNode.tsx:27 | At the start of an edit session the edit copy is the parent's node itself, so every row of the copy is the parent's row of the same index. |
| UmlNodeAsWritten.ChangeProperty | src/components/codeflow/UmlNode.tsx:237-259 | A property row edit changes the edit copy as the intended model does. The parent's row that is the same object takes the same edit, and the parent's other rows are kept. Rows still shared hold equal values. |
| UmlNodeAsWritten.ChangeMethod | src/components/codeflow/UmlNode.tsx:349-371 | A method row edit changes the edit copy, and the parent's row that is the same object takes the same edit. The parent's other rows are kept. |
| UmlNodeAsWritten.ParameterChange | src/components/codeflow/UmlNode.tsx:77-84 | The popover's list reaches the selected method of the edit copy and also the parent's method that is the same object. The popover closes either way. |
| UmlNodeAsWritten.AddProperty | src/components/codeflow/UmlNode.tsx:183-186 | The appended blank property is a new object, so the parent's node is unchanged. |
| UmlNodeAsWritten.AddMethod | src/components/codeflow/UmlNode.tsx:293-302 | The appended blank method is a new object, so the parent's node is unchanged. |
| UmlNodeAsWritten.RemoveProperty | src/components/codeflow/UmlNode.tsx:264-268 | Deleting a row splices a copy of the list, so the parent keeps the row. The remaining rows stay shared with the same parent rows. |
| UmlNodeAsWritten.RemoveMethod | src/components/codeflow/UmlNode.tsx:392-396 | Deleting a method row splices a copy of the list, so the parent keeps the row. The remaining rows stay shared. |
| UmlNodeAsWritten.Cancel | src/components/codeflow/UmlNode.tsx:50-53 | Cancel as written goes back to the parent's node, which already holds the current value of every row that is one of its objects. |
| UmlNodeAsWritten.RowEditSurvivesCancel | src/components/codeflow/UmlNode.tsx:50-53 | An edit to an existing property row followed by Cancel leaves the edit in the copy. The intended Cancel restores the row. |
| UmlNodeAsWritten.CancelKeepsRename | src/components/codeflow/UmlNode.tsx:50-53 | Renaming the only property `a` to `b` and cancelling gives back a node whose property is named `b`. The intended Cancel gives back the node with `a`. |
| ParameterEditor.Open | src/components/codeflow/ParameterEditor.tsx:16 | The popover starts with exactly the list it is given. |
| ParameterEditor.ChangeParameter | src/components/codeflow/ParameterEditor.tsx:18-22 | A field edit at index `i` sets only that field of parameter `i`. The other field and every other parameter are kept. |
| ParameterEditor.ChangeParameterLaws | src/components/codeflow/ParameterEditor.tsx:18-22 | Writing a value a parameter field already holds changes nothing. Of two writes to one field the later wins. Writes to the two fields commute. |
| ParameterEditor.AddParameter | src/components/codeflow/ParameterEditor.tsx:24-26 | Adding appends one parameter with empty name and type, and keeps the existing ones. |
| ParameterEditor.DeleteParameter | src/components/codeflow/ParameterEditor.tsx:28-32 | Deleting `i` removes exactly that parameter and keeps the others in order. An index past the end removes nothing. |
| ParameterEditor.DeleteAdded | src/components/codeflow/ParameterEditor.tsx:24-32 | Deleting the parameter just added gives the list back. |
| ParameterEditor.Save | src/components/codeflow/ParameterEditor.tsx:34-36 | Save hands over the current list element for element. |
| ParameterEditor.SaveUnedited | src/components/codeflow/ParameterEditor.tsx:16-36 | Opening and saving without edits hands back the list the popover was given. |
| NodeEditDialog.Open | src/components/codeflow/NodeEditDialog.tsx:37-41 | The dialog starts with the node as its edit copy, the popover closed and no method selected. |
| NodeEditDialog.DropUnnamed | src/components/codeflow/NodeEditDialog.tsx:98-103 | The save filter keeps only members with a non-empty name, never adds any, and leaves every other field as it was. |
| NodeEditDialog.DropUnnamedLaws | src/components/codeflow/NodeEditDialog.tsx:98-103 | A member survives exactly when it was present and named. The filter distributes over concatenation, so order is kept, and it is idempotent. |
| NodeEditDialog.HandleSave | src/components/codeflow/NodeEditDialog.tsx:98-106 | Save hands up the filtered copy with the close flag. Closing also closes the popover and forgets the selection. Not closing leaves the dialog as it was. |
| NodeEditDialog.HandleInputChange | src/components/codeflow/NodeEditDialog.tsx:43-52 | A field change updates the copy and auto-saves the filtered updated copy without closing. |
| NodeEditDialog.HandleInputChangeAsWritten | src/components/codeflow/NodeEditDialog.tsx:43-52 | As written, the auto-save hands up the copy from before the change. |
| NodeEditDialog.AutoSaveMatchesSave | src/components/codeflow/NodeEditDialog.tsx:43-106 | The corrected auto-save hands up what a save right after the change would, so a rename is saved under the new name. |
| NodeEditDialog.AutoSaveIsStale | src/components/codeflow/NodeEditDialog.tsx:43-52 | Renaming `A` to `B` auto-saves a node still named `A`, unlike a save right after the change. |
| NodeEditDialog.AddProperty | src/components/codeflow/NodeEditDialog.tsx:160-166 | The add button appends the public, non-static, non-final property with empty name and type to the copy. Since it is unnamed, the auto-save hands up what a save before the click would. |
| NodeEditDialog.AddMethod | src/components/codeflow/NodeEditDialog.tsx:295-309 | The add button appends the public, non-static, non-final method with empty name and return type, no parameters and empty code to the copy. Since it is unnamed, the auto-save hands up what a save before the click would. |
| NodeEditDialog.BlankPropertyDropped | src/components/codeflow/NodeEditDialog.tsx:98-103 | The save filter drops the blank property the add button appends, so a node with it saves like the node without it. |
| NodeEditDialog.BlankMethodDropped | src/components/codeflow/NodeEditDialog.tsx:98-103 | The save filter drops the blank method the add button appends, so a node with it saves like the node without it. |
| NodeEditDialog.AddedBlankIsDropped | src/components/codeflow/NodeEditDialog.tsx:160-166 | The auto-save after adding a blank member hands up what a save without it would, since the blank member is unnamed. |
| NodeEditDialog.DeletePropertyAt | src/components/codeflow/NodeEditDialog.tsx:270-274 | The delete button of row `i` removes exactly that property from the copy. The corrected auto-save then lacks exactly that property, counted as a multiset, when it was named. It is the save from before the click when the property was unnamed or `i` is past the end. |
| NodeEditDialog.DeleteMethodAt | src/components/codeflow/NodeEditDialog.tsx:421-425 | The delete button of row `i` removes exactly that method from the copy. The corrected auto-save then lacks exactly that method, counted as a multiset, when it was named. It is the save from before the click when the method was unnamed or `i` is past the end. |
| NodeEditDialog.DeletePropertyAtAsWritten | src/components/codeflow/NodeEditDialog.tsx:270-274 | As written, the copy loses property `i`, but the auto-save hands up the copy from before the click. |
| NodeEditDialog.DeleteMethodAtAsWritten | src/components/codeflow/NodeEditDialog.tsx:421-425 | As written, the copy loses method `i`, but the auto-save hands up the copy from before the click. |
| NodeEditDialog.DeleteAutoSaveIsStale | src/components/codeflow/NodeEditDialog.tsx:270-274 | Deleting the only, named property or method as written auto-saves a node that still has it. The corrected deletes hand up empty lists. |
| NodeEditDialog.ChangeProperty | src/components/codeflow/NodeEditDialog.tsx:65-69 | A property field edit at `i` affects only property `i` and auto-saves the filtered result. |
| NodeEditDialog.ChangeMethod | src/components/codeflow/NodeEditDialog.tsx:71-75 | A method field edit at `i` affects only method `i` and auto-saves the filtered result. |
| NodeEditDialog.HandleAddParameter | src/components/codeflow/NodeEditDialog.tsx:77-80 | Opening the popover on method `i` selects it and changes nothing else. |
| NodeEditDialog.HandleParameterClose | src/components/codeflow/NodeEditDialog.tsx:91-96 | Closing the popover forgets the selection and keeps the copy. |
| NodeEditDialog.HandleParameterChange | src/components/codeflow/NodeEditDialog.tsx:82-89 | With no method selected nothing happens at all. Otherwise only the selected method takes the parameters and is auto-saved. The popover stays as it was. |
| NodeEditDialog.SetCodeByName | src/components/codeflow/NodeEditDialog.tsx:111-114 | Every method with the given name gets the code, and every other method is kept. |
| NodeEditDialog.SetCodeByNameLaws | src/components/codeflow/NodeEditDialog.tsx:111-114 | Setting the code twice is setting it once. Methods of other names survive unchanged, and the update commutes with the save filter. |
| NodeEditDialog.OnMethodCodeChange | src/components/codeflow/NodeEditDialog.tsx:108-117 | The code change hands up the dialog's node prop with the copy's methods, code set on the named ones, without closing. |
| ConnectionTypeSelector.MenuItems | src/components/codeflow/ConnectionTypeSelector.tsx:48-52 | The menu lists the kinds' labels in declaration order. |
| ConnectionTypeSelector.ClickOutside | src/components/codeflow/ConnectionTypeSelector.tsx:17-25 | A press on a kind label leaves the menu alone. Any other press closes it and cancels. |
| ConnectionTypeSelector.HandleSelect | src/components/codeflow/ConnectionTypeSelector.tsx:34-39 | Selecting closes the menu and reports exactly that kind. |
| ConnectionTypeSelector.KeepsIffLabel | src/components/codeflow/ConnectionTypeSelector.tsx:21 | A press is kept exactly when its text is one of the five labels. A missing or empty text always cancels. |
| ConnectionTypeSelector.MenuLists | src/components/codeflow/ConnectionTypeSelector.tsx:48-52 | The menu lists exactly Inheritance, Implementation, Composition, Aggregation and Dependency, and a press on any item never cancels. |
| EditorFacts.HandleIdPrefixes | src/components/codeflow/CodeFlow.tsx:164 | No handle id a node renders starts with `top` or `bottom`. |
| EditorFacts.NodeHandlesNeverSwap | src/components/codeflow/CodeFlow.tsx:156-196 | Between rendered handles nothing is ever swapped. The gate refuses exactly the self-loops, and a connection becomes pending as drawn. |
| EditorFacts.ImportedEdgesUnlabelled | src/utils/codeToUml.ts:147-158 | No imported edge carries a connection kind's label. |
| EditorFacts.OutgoingSkips | src/components/codeflow/CodeFlow.tsx:133-135 | Edges of another kind in front of an edge list add nothing to the Compile clauses. |
| EditorFacts.IncomingSkips | src/services/codeGenerator.ts:7-15 | Edges of another kind in front of an edge list add nothing to the generator's clauses. |
| EditorFacts.UnlabelledEdgesInvisible | src/services/codeGenerator.ts:5-30 | Edges of no known kind in front of any edge list change neither renderer's output. |
| EditorFacts.Payloads | src/services/codeGenerator.ts:5 | The generator sees the canvas nodes' payloads, one per node, in order. |
| EditorFacts.ImportedDiagramRendersWithoutClauses | src/utils/codeToUml.ts:140-160 | Whatever edges are drawn later, a diagram read from Java text renders with both renderers as if its imported edges were absent. |
| EditorFacts.RenderersReadEdgesOppositely | src/components/codeflow/CodeFlow.tsx:133-137 | An Inheritance edge from `s` to `t` puts `t` after `extends` in `s`'s Compile block. In the generator it puts `s` after `implements` in `t`'s block, and Implementation is the mirror case. |
| EditorFacts.Dispatch | src/components/codeflow/CodeFlow.tsx:416-420 | Nodes never change, and without a report nothing changes. Any report clears the pending connection. Exactly one edge, of the chosen kind with the pending endpoints and handles, is appended when a kind is chosen while a connection is pending; otherwise the edges stay as they were. |
| EditorFacts.PickingAKindAddsOneEdge | src/components/codeflow/ConnectionTypeSelector.tsx:17-39 | Pressing a kind's item does not cancel. Selecting it appends exactly one edge of that kind under the fresh id and clears the pending connection. |
| EditorFacts.PressingElsewhereCancels | src/components/codeflow/ConnectionTypeSelector.tsx:17-25 | A press anywhere but on a kind label closes the menu and drops the pending connection without adding an edge. |
| EditorFacts.UneditedParametersChangeNothing | src/components/codeflow/UmlNode.tsx:376-391 | Opening the popover on a method and saving it unedited leaves the node's copy as it was and closes the popover. |

## Left out

- Rendering, styling, dialogs' layout, handle geometry, the Monaco editor
  wrapper and `getEdgeStyle` are presentation. Authentication, routing and
  the HTTP services are glue.
- React state timing and DOM listeners are not modelled. The
  shallow-copy-then-mutate row updates are modelled as pure updates in
  `UmlNode`, `NodeEditDialog` and `ParameterEditor`. For the node
  component, the sharing of row objects with the parent's node is also
  modelled as written, in `UmlNodeAsWritten`.
- UmlNode.CancelForgetsEdits: holds of the intended, pure-update model
  only. In the component the edit copy starts as `data.node` itself
  (`src/components/codeflow/UmlNode.tsx:27`), and every row edit writes
  into the row object that `data.node` shares (lines 56-63, 79-80,
  237-259, 349-371). So after an existing row is edited, Cancel
  (lines 50-53) finds the edit in `data.node` and keeps it. This is
  `UmlNodeAsWritten.RowEditSurvivesCancel`, listed under Findings.
- ParameterEditor.ChangeParameter: the pure update does not state that
  `src/components/codeflow/ParameterEditor.tsx:20` writes into the
  parameter object shared with the method being edited. The popover's
  Cancel (line 84) therefore keeps field edits already typed. That sharing
  is not modelled for the popover.
- Identifier generation (nanoid) and `Math.random` placement become
  parameters: a fresh id and a position.
- Positions: reactflow coordinates are JavaScript numbers, and random
  placement gives fractions. `Types.Position` holds integers. No
  statement of the model depends on fractional coordinates.
- reactflow's `addEdge` is foreign code. Select is modelled as a plain
  append, and any duplicate filtering `addEdge` may do is not modelled.
- `onEdgesDelete` only logs (`src/components/codeflow/CodeFlow.tsx:503`).
  It has no effect to model, and neither do the `console.log` and
  `console.warn` calls.
- The `useCallback` in `src/components/codeflow/UmlNode.tsx:41-43` is never
  invoked, so the edit copy is never resynchronised with the parent's node.
- The dialog's select-options state (`selectedOptions`, the fruit options)
  and its accordion state are not used by any edit.
- The code editor's `onChange` at
  `src/components/codeflow/NodeEditDialog.tsx:436-441` is the composite of
  a method field change followed by `onMethodCodeChange`. Both halves are
  modelled; the composite is not stated on its own.
- `NodeData.position` and `NodeData.code` (`src/types/nodeData.ts:9-10`)
  are not modelled. No operation of the model reads them. `addNode` seeds
  the payload position with (0, 0), and `duplicateNode` copies it
  (`src/components/codeflow/CodeFlow.tsx:387`). Neither renderer nor the
  importer uses it.
- `onConnectStart` and `onConnectStop`
  (`src/components/codeflow/CodeFlow.tsx:348-364`) are wired to the
  canvas's connect-start and connect-end events (lines 495-498). They
  only set the drag state: whether a drag is on, its start node and its
  source handle. The only reader of that state is
  `isValidConnectionHandler` (lines 366-370), which is never passed to the
  canvas; the canvas uses `isValidConnection` (line 502). None of the
  three handlers is modelled, since nothing observable depends on them.
- `src/components/codeflow/ReactFlowComponent.tsx` is an older, unrouted
  copy of the connection flow without the swap rule, and is not part of
  this model. `FlowWrapper.tsx` and `testflow.tsx` are demos.
- Letter case: `toLowerCase` is modelled on ASCII letters only. Other
  characters are left as they are, which covers every keyword the
  importer compares.
- JavaScript regular expressions in general are not modelled. The class,
  method and property patterns are hand-written recognisers for exactly
  those shapes.
- Missing fields:
  - the importer, and the node component's add buttons
    (`src/components/codeflow/UmlNode.tsx:183-186`, 293-302), leave
    `isFinal` undefined, modelled as false;
  - it leaves `insideCode` and `initialValue` undefined, modelled as none;
  - a parameter piece with one token gets `undefined` as its name,
    modelled as the empty name.
- Edits at an index past the end of a member list throw in JavaScript.
  There, `MemberEdits.EditProperty`, `MemberEdits.EditMethod`,
  `ParameterEditor.ChangeParameter`, `UmlNode.ChangeProperty`,
  `UmlNode.ChangeMethod`, `UmlNode.ParameterChange`,
  `NodeEditDialog.ChangeProperty`, `NodeEditDialog.ChangeMethod` and
  `NodeEditDialog.HandleParameterChange` require an index in range.
  `splice` past the end is modelled: it removes nothing.
- NodeEditDialog.ChangeMethod: parameter-list edits go through
  `NodeEditDialog.HandleParameterChange` instead, so it excludes them.
- DeclarationFacts.MethodRoundTrip: excludes a non-static method whose
  return type is the word `static`. The pattern reads that word as the
  modifier, so such a declaration does not read back.
- CodeToUml.ParseVisibility: its contract states only the absent case. The
  full mapping is stated by `ImportFacts.ParseVisibilityRoundTrip` and
  `ImportFacts.ParseVisibilityIgnoresCase`.
- CodeToUml.StripBlockComments: states only that the text does not grow.
  What is removed is stated by `ImportFacts.BlockCommentRemoved`.
- CodeToUml.StripLineComments: states only that the text does not grow.
  What is removed is stated by `ImportFacts.LineCommentRemoved`.
- The Compile output does not read back through the importer in general.
  A static property is written `static private T n`, which the property
  pattern reads with type `private`. The method lines end `){` followed by
  an empty body, so only the first method of a class survives the `;`
  split. Neither renderer's output is meant as importer input, so no
  round trip between them is claimed.

## Findings

| source | as written | input that shows it | evidently intended | confidence | as-written member | corrected member |
|---|---|---|---|---|---|---|
| src/components/codeflow/NodeEditDialog.tsx:43-52 | `handleInputChange` queues the state update and then calls `handleSave(false)`, which reads `editableNode` from the same render, the copy from before the change. | In a dialog on a class named `A`, type the name `B`. The auto-save hands the parent a node still named `A`. | The auto-save hands up the copy with the change applied, as a save right after it would. | medium, not executed | NodeEditDialog.HandleInputChangeAsWritten (NodeEditDialog.AutoSaveIsStale) | NodeEditDialog.HandleInputChange (NodeEditDialog.AutoSaveMatchesSave) |
| src/components/codeflow/NodeEditDialog.tsx:270-274 | The delete buttons of the property rows (and of the method rows, lines 421-425) go through `handleInputChange`, whose auto-save reads the copy from before the click. | In a dialog on a node whose only property is `x`, delete row 0. The auto-save hands the parent a node that still has `x`. | The auto-save hands up the copy without the deleted row. | medium, not executed | NodeEditDialog.DeletePropertyAtAsWritten, NodeEditDialog.DeleteMethodAtAsWritten (NodeEditDialog.DeleteAutoSaveIsStale) | NodeEditDialog.DeletePropertyAt, NodeEditDialog.DeleteMethodAt |
| src/components/codeflow/UmlNode.tsx:50-53 | Cancel, commented `Revert to original data`, sets the edit copy back to `data.node`. But the copy was `data.node` to begin with (line 27), and the row edits (lines 237-259 and 349-371) write fields into row objects that `data.node` shares. | On a node whose only property is `a`, enter edit mode, rename the row to `b` and press Cancel. The node shows `b`. | Cancel restores the node as it was before the edits. | medium, not executed | UmlNodeAsWritten.Cancel (UmlNodeAsWritten.RowEditSurvivesCancel, UmlNodeAsWritten.CancelKeepsRename) | UmlNode.Cancel (UmlNode.CancelForgetsEdits) |

The dialog's row field edits (`NodeEditDialog.ChangeProperty`,
`NodeEditDialog.ChangeMethod`) and its parameter change
(`NodeEditDialog.HandleParameterChange`) use the corrected auto-save.
This is not a choice between the two halves of the first row, because
these edits write the field into the row object in place
(`src/components/codeflow/NodeEditDialog.tsx:65-75`, 82-89 and the row handlers
after it). The stale `editableNode` holds that same object, so the stale
save already sees the change. Only renames of the node itself, additions
and deletions build new objects, and so only they are affected by the
stale copy.
