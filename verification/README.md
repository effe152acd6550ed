# jails, modelled in Dafny

jails is a command line over a compiler: it edits a model file written in JDL,
previews and applies plans, checks an API contract against its baseline,
renames Java types, and serves editors. This project models the parts of it
that are hard to get right and proves what they promise.

- **Text surgery on the model file.** `IdentifierEdit`, `WholeWord`, `Splitting`,
  `SpanEdits`, `Documents`, `Projections`, `ProjectionRemoval`,
  `ProjectionLines`, `CommentCut`,
  `StringAwareRemoval`, `StringAwareRewrite`, `FieldRemoval`, `UseLine`,
  `FieldCascade`, `TopLevelUse`, `Selectors`, `Annotations`,
  `StringAwareAnnotations`. The cursor loop that replaces an identifier is
  tokenwise substitution; span edits applied back to front are one simultaneous
  splice; removing a field from a `use` line commutes with splitting the line.
  Where an operation reads strings, comments or selectors as plain text, the
  exact condition under which its answer is right all the same.
- **Contract compatibility.** `Json`, `SchemaCompatibility`, `SchemaFindings`,
  `Contract`, `ContractFindings`, `OperationCompatibility`. The recursive diff
  against what the two documents say of each operation and node, against a
  relation that says what compatible means, and the exact condition under which
  compatibility composes, for schemas and for whole contracts.
- **Plans and files.** `PathOrder`, `PlanDelta`, `PlanRows`, `TextualRename`,
  `TableLineage`. The preview against what the bundle carries and what the
  executor does to the disk, the two-phase rename under interruption at any
  point, the lineage worklist against chains of rename statements.
- **The language server.** `Bytes`, `LspFraming`, `LspHeaders`, `LspServer`,
  `LspConversation`, `EditorText`. Framing, the session over every run as the
  client sees it, the word under the cursor.
- **Encoders.** `PercentEncoding`, `PathTemplate`, `DigestFraming`, `Argv`. Each
  against its decoder.

`Text` holds the Rust string operations the rest is written in.

## How the model stands to the code

- Text is a sequence of characters, and bytes are characters below 256. Byte
  offsets and `char` boundaries therefore coincide with positions.
- A parsed document is the list of its pieces in order: declarations, members
  and the text between them, each with its exact text. The parser itself is
  not modelled. A rewritten `use` member that still has a projection is read
  again as the same member, one that has none as plain text.
- Loops and in-place updates are methods; each is proved equal to a function or
  to a property stated without it, and the theorems are about that.
- Language services, the update of one Java file, and everything read from a
  clock, a network or a disk are parameters.

## What the proofs found

- `replace_identifier` is right for every identifier. For a search text that can
  begin again inside itself right after a non-word character it steps over
  occurrences: `RestartMissesAHit` builds the text.
- When the only segment `remove_projection` keeps is an empty one, as in a line
  `use search,`, the line it writes has no segments at all.
- Cutting a line at the first `//` is right exactly when that `//` is outside a
  string (`CutIsAwareIffNotQuoted`). Removing `dto` from
  `use scaffold(path: "//x"), dto` therefore changes nothing
  (`StripLeavesNoneIff` has the exact condition), and removing `factory` from
  `use factory, scaffold(path: "//x")` puts a blank into the route that stays
  (`RouteGetsBlank`). `KeepsOthersIff` says exactly when the other segments are
  kept as they are.
- `set_annotation` takes the first closed `@name(...)` of the line for the place
  to edit and the first `//` for the comment. So on
  `title: string // was @id(a)` it edits the comment, on
  `site: string @default("https://x")` it writes into the string, and what it
  sets is lost behind an annotation left open. `AwareReadsBackIff` has the exact
  condition under which a reader that knows strings and comments finds what was
  set.
- Removing the last field of a top-level `use search(fields: [title]) for
  Invoice, Payment` writes `use Payment`: the selector survives only beside
  another projection (`SelectorSurvivesIff`). A comment fares as the selector
  does, and a `search(...)` that stands in a comment can take the whole line with
  it (`LinesLost`).
- A top-level declaration is read from the first `for` of its text to the end of
  the line, so neither `use search(fields: [format]) for Note` nor
  `use dto for Note // index` is taken to be about `Note`. `KeywordRightIff` and
  `EarlyForRightIff` say exactly when the answer is right, with comments and with
  what stands behind `except`, which is not read.
- A field rename undone by a second one restores the text exactly unless the new
  name is its own label while the old one was not, and the old label occurred.
- Compatibility of two schemas composes with every later one exactly when the
  second covers the first (`ComposesIffCovers`): dropping a `type` in one release
  allows any type in the next. For whole contracts the response and security
  checks can make up for what the schema check misses, and the condition counts
  them (`ContractComposesIff`).
- An `accept` row leaves the bytes, but leaves the mode only when the recorded
  mode is the one on disk.
- The deletion sweep and the `delete` rows differ exactly when a publication of
  the merge base retires a path, because `deleted_paths` does not skip that tree
  and `preview` does. The comment above `deleted_paths` says they cannot
  disagree; the code is followed here.
- `render_argv` loses empty arguments, and only those.
- The digest framing tells maps of text files apart, but not all maps: one file
  whose body holds, between an 0xFF and a NUL, a text path that sorts behind its
  own has the bytes of two, and any two files have the bytes of one (`OnlyMapIff`).
- `unescape` reads `%+A` as a byte, because `from_str_radix` takes a leading plus
  sign; decoding still undoes encoding.

## Model

| member | source | states |
|---|---|---|
| IdentifierEdit.ReplaceIdentifier | src/model_jdl_edit.rs:176-201 | terminates for every non-empty search text, and for an identifier the result replaces exactly the maximal words equal to it |
| IdentifierEdit.ScanFindsEveryWhole | src/model_jdl_edit.rs:183-198 | skipping past a hit that is not whole never misses a whole one, when the search text cannot restart inside itself after a non-word character |
| IdentifierEdit.IdentifiersDoNotRestart | src/model_jdl_edit.rs:176-201 | an identifier never restarts in that way |
| IdentifierEdit.RestartMissesAHit | src/model_jdl_edit.rs:183-198 | whenever the search text does restart so, there is a text in which the loop leaves a whole occurrence in place, whatever other text it is to be replaced by |
| IdentifierEdit.ScanIsRename | src/model_jdl_edit.rs:176-201 | the cursor walk over positions equals cutting the text into words and separators, substituting, and joining |
| IdentifierEdit.RenameWordByWord | src/model_jdl_edit.rs:176-201 | a word of ASCII letters, digits and underscores between other characters is replaced exactly when it is the one to be replaced, whatever stands around it |
| IdentifierEdit.RenameKeepsSeparators | src/model_jdl_edit.rs:176-201 | text without such characters is kept |
| IdentifierEdit.RenameBack | src/model_jdl_edit.rs:176-201 | renaming and renaming back restores the text if and only if the new identifier was not already a word of it |
| IdentifierEdit.RenameBoth | src/model_jdl_edit.rs:94-137 | the two replacements in a row, Java name then label, are one simultaneous substitution of both: the second never rewrites what the first wrote |
| IdentifierEdit.LabelGrows | crates/jails-model/src/field_syntax.rs:240-255 | a label, character by character: a capital becomes lower case behind an underscore unless it comes first, a dash an underscore, every other character is kept |
| WholeWord.NamesIffFree | src/model_generate/report.rs:366-374 | for any notion of word character that extends the ASCII one, the report's match test holds exactly when the name stands somewhere with no such character on either side |
| WholeWord.NamesIffToken | src/model_generate/report.rs:366-374 | a name the report finds is one of the text's maximal words, and conversely over a text whose word characters are ASCII |
| WholeWord.PieceIffToken | src/model_status.rs:438-447 | splitting at every non-word character yields the name exactly when it is a maximal word |
| WholeWord.ThreeNotionsAgree | src/model_generate/report.rs:366-374 | over a text whose word characters are ASCII, the match test, the split test, and a replacement by anything else changing the text are the same condition; the table test is the match test on lowered text |
| Splitting.MentionsIffNames | src/model_status.rs:438-447 | a migration mentions a table exactly when the name is made of ASCII word characters and stands in the text, ASCII case aside, with none of them on either side |
| SpanEdits.ApplyEdits | src/model_jdl_edit.rs:306-316 | distinct, non-empty, disjoint edits applied back to front equal the splice of all of them at once, a function of the set of edits and not of the order they were collected in |
| SpanEdits.SpliceInFront | src/model_jdl_edit.rs:306-316 | one more edit in front of all others already applied can be made at its original offsets |
| SpanEdits.KeepUntilEdit | src/model_jdl_edit.rs:306-316 | every stretch of the source in which no edit starts is copied through unchanged |
| Documents.ReplaceSpanIsReplacePiece | crates/jails-model/src/jdl/v1/cst.rs:127-144 | replacing the span of one piece replaces that piece and leaves every other one and its order |
| FieldCascade.CascadeFieldRename | src/model_jdl_edit.rs:94-137 | the resulting source is the document with the field renamed in exactly the `use`, `index` and `unique` members of the entity and the `use` declarations about it; every other piece is as it was |
| FieldCascade.CascadeFieldRemove | src/model_jdl_edit.rs:139-174 | the resulting source is the document in which, kind by kind, every `use` member of the entity and every `use` declaration about it is what the line removal makes of it, every `index` and `unique` member what the constraint removal makes of it, and every other piece is as it was |
| FieldCascade.ConstraintFollows | src/model_jdl_edit.rs:151-159 | after the cascade an `index` or `unique` member keeps what is around its own brackets and loses from its list exactly the items with the field's label, and is empty when no text is left in the list |
| FieldCascade.ReachesIffSameLabel | src/model_jdl_edit.rs:296-299 | besides `*`, a target reaches an entity exactly when their labels are the same |
| FieldCascade.CollectedIsRewritten | src/model_jdl_edit.rs:94-174 | whatever order the two loops collect edits in, they are disjoint and splicing them is rewriting the pieces |
| FieldCascade.CascadeBack | src/model_jdl_edit.rs:94-137 | with both new names free, renaming back restores the text if and only if the new name is not its own label, or the old one was, or the old label did not occur |
| Projections.ProjectionSegments | src/model_generate_jdl/facet.rs:473-507 | the scanner loop computes the trimmed pieces between top-level commas |
| Projections.PiecesAtCut | src/model_generate_jdl/facet.rs:482-504 | at a comma outside brackets and strings the pieces of the whole are the pieces of the two sides |
| Projections.PiecesCover | src/model_generate_jdl/facet.rs:482-506 | the pieces joined with their commas are the text that was split: the splitter loses no character |
| Projections.SplitAfterJoin | src/model_generate_jdl/facet.rs:463-506 | joining segments with a comma and a space and splitting again gives the same segments |
| Projections.SegmentsAreShaped | src/model_generate_jdl/facet.rs:473-507 | every segment the splitter returns is trimmed, comment-free and shaped so that it survives a join |
| ProjectionLines.CommaSeparatesIff | src/model_generate_jdl/facet.rs:482-504 | outside strings a comma separates two projections exactly when no bracket opened before it, of either kind, is still open, closing brackets with nothing to close not counted |
| ProjectionLines.QuotedCommaStays | src/model_generate_jdl/facet.rs:482-491 | a comma in a string, escaped characters before it or not, never separates |
| ProjectionLines.OnlyCommasSeparate | src/model_generate_jdl/facet.rs:482-506 | nothing else does |
| CommentCut.CutIsAwareIffNotQuoted | src/model_generate_jdl/facet.rs:474-474 | cutting at the first `//` is what a string-aware reader does if and only if that `//` does not stand in a string |
| ProjectionRemoval.ReplacementSegments | src/model_generate_jdl/facet.rs:443-466 | the rewritten line reads as the original's segments, in order, without those of the projection, except that one empty segment left reads as none |
| ProjectionRemoval.ReplacementKeepsComment | src/model_generate_jdl/facet.rs:443-466 | a line with a comment keeps the comment, the newline and the indentation |
| ProjectionLines.WrittenBack | src/model_generate_jdl/facet.rs:443-466 | the line part by part, comment or not: the indentation, `use`, the kept projections, one space and the comment, the newline; without any kept, the comment with its indentation and newline, or nothing |
| ProjectionLines.ProjectionNameIs | src/model_generate_jdl/facet.rs:509-514 | a segment is called what stands before its first parenthesis or white space |
| ProjectionRemoval.StripSettles | src/model_generate_jdl/facet.rs:421-471 | one rewrite of a member takes the projection off it for good, as the code's own splitter reads it |
| ProjectionRemoval.OneCarrierLess | src/model_generate_jdl/facet.rs:423-470 | every round of the loop lowers the count of members that carry the projection |
| ProjectionRemoval.FirstCarrier | src/model_generate_jdl/facet.rs:426-439 | the search finds a member that carries the projection, or none does |
| ProjectionRemoval.RemoveProjection | src/model_generate_jdl/facet.rs:421-471 | terminates; exactly the `use` members of the owner with a segment of that name have been rewritten, every other piece is as it was, and the code's own splitter finds the projection on no member of the owner afterwards |
| StringAwareRemoval.RewrittenReadsAware | src/model_generate_jdl/facet.rs:421-507 | a member whose first `//` is not in a string is rewritten into one whose first `//` is not, and whose segments, read with strings in mind, are its own without the projection |
| StringAwareRemoval.StripLeavesNoneIff | src/model_generate_jdl/facet.rs:421-507 | read with strings in mind, nothing of the projection is left on a member if and only if its first `//` is not in a string, or the segment that `//` cuts is the projection, or no segment behind that one is |
| StringAwareRemoval.RemovalLeavesNoneIff | src/model_generate_jdl/facet.rs:421-471 | so it is for a whole document: nothing is left exactly when that holds of every `use` member of the entity |
| StringAwareRemoval.PathHidesDto | src/model_generate_jdl/facet.rs:473-507 | a route path that opens with two slashes hides the projection behind it: the removal changes nothing |
| StringAwareRewrite.KeepsOthersIff | src/model_generate_jdl/facet.rs:421-507 | read with strings in mind, removing a projection that the member carries leaves exactly its other segments if and only if its first `//` is not in a string; or the segment that `//` cuts stays, none behind it is the projection, and the text before the `//` ends in exactly one blank; or the cut segment is the projection and so is every one behind it |
| StringAwareRewrite.RouteGetsBlank | src/model_generate_jdl/facet.rs:443-466 | removing `factory` from `use factory, scaffold(path: "//x")` puts a blank into the route, whatever its rest is |
| FieldRemoval.RemoveFieldFromBracketList | src/model_jdl_edit.rs:203-221 | reports a removal exactly when the trimmed items change by the filter, and then returns the kept items joined |
| FieldRemoval.NamesFieldIffSameLabel | src/model_jdl_edit.rs:209-214 | the three tests of a list item are one: its first word has the field's label |
| FieldRemoval.KeptExactly | src/model_jdl_edit.rs:203-221 | what is kept is every item whose first word has another label |
| FieldRemoval.BracketListFilters | src/model_jdl_edit.rs:203-221 | the rewritten list, read again, is the original list without the field |
| FieldRemoval.FindClosingParen | src/model_jdl_edit.rs:225-239 | from an opening parenthesis, the first place up to which as many are closed as opened, and none when there is no such place |
| FieldRemoval.ClosingBalances | src/model_jdl_edit.rs:225-239 | the depth counter stops exactly there |
| FieldRemoval.RemoveFieldFromUseLine | src/model_jdl_edit.rs:223-271 | none when no list or no item matches; otherwise the line with its list filtered, or what `DropSearch` leaves of it when the list empties, which the theorems on `use` lines characterise |
| FieldRemoval.RemoveFieldFromConstraintLine | src/model_jdl_edit.rs:273-291 | the constraint line without the field, and the empty line when no field is left |
| FieldRemoval.ConstraintFilters | src/model_jdl_edit.rs:273-291 | around its own brackets a constraint line keeps everything, its list read again is filtered, and it goes away exactly when the filtered list joins to nothing |
| FieldRemoval.ConstraintStays | src/model_jdl_edit.rs:274-278 | a line in which no list opens before one closes is left alone |
| UseLine.RemovalCommutes | src/model_jdl_edit.rs:223-271 | for a comment-free line whose search projection is `search(...)` with one bracket list: the removal answers none exactly when the field is not in the list; otherwise splitting the result gives the same segments with the list filtered, or without the search segment when the list empties |
| UseLine.WithoutFieldOf | src/model_jdl_edit.rs:223-271 | the parenthesis counter and the bracket search land on the search projection, so only its list is rewritten |
| UseLine.DropSegments | src/model_jdl_edit.rs:255-269 | on a line without a selector, dropping the search projection with one comma drops exactly its segment, whether it stands first, last, in the middle or alone |
| TopLevelUse.TopLevelRemoval | src/model_jdl_edit.rs:223-271 | on a line that goes on with a `for` selector or a comment: none exactly when the field is not in the list; with fields left only the list changes; when the list empties, the other projections and the rest of the line stay if there are others, and otherwise everything up to the first comma of the selector or comment goes, or the whole line |
| TopLevelUse.SelectorSurvivesIff | src/model_jdl_edit.rs:254-270 | when the list empties the selector or comment survives if and only if another projection stands beside the search one, and the line disappears if and only if none does and the selector or comment has no comma |
| TopLevelUse.OthersAreKept | src/model_jdl_edit.rs:254-270 | the projections left before the selector are the others, in order |
| TopLevelUse.TextBecomesProjection | src/model_jdl_edit.rs:254-270 | for every field, a line with only the search projection is written back as `use` and what stands behind the first comma: the second target, or the end of the comment |
| TopLevelUse.LoneMentionDeletes | src/model_jdl_edit.rs:225-270 | a `search(...)` that stands anywhere on the line, in its comment too, takes the whole line with it when its one field goes and no comma stands around it |
| TopLevelUse.LinesLost | src/model_jdl_edit.rs:223-271 | three such lines: `use Payment` from a selector, `use body` from a comment, and nothing from `use dto // was search(fields: [title])` |
| Selectors.ReadsNamesIff | src/model_jdl_edit.rs:293-304 | with no `except` inside a name or between an earlier `for` and the keyword: the text taken for the targets is the names as written if and only if no `for` stands before the keyword and no comment right behind the names |
| Selectors.KeywordReads | src/model_jdl_edit.rs:293-304 | without a `for` before the keyword or an `except` inside a name, with or without exemptions and comment, the answer goes by the names; with a comment right behind them, by all names but the last and the items of the comment behind its first comma |
| Selectors.KeywordRightIff | src/model_jdl_edit.rs:293-304 | that answer is right if and only if: with exemptions, the entity is not both named and exempt; with a comment right behind the names, an earlier name is the entity's or the last name and those items agree on it; otherwise always |
| Selectors.CommentHidesEntity | src/model_jdl_edit.rs:293-304 | a declaration for one entity, with a comment that has no comma, is not taken to be about it |
| Selectors.ExceptInNameRightIff | src/model_jdl_edit.rs:293-304 | with `except` inside a name the text is read up to there; the answer is right if and only if an earlier name is the entity's, or what is read of that name and the names from there on agree on it |
| Selectors.EarlyForReads | src/model_jdl_edit.rs:293-304 | with a `for` before the keyword, what is read is every item between the two but the last, every name but the first, and the items of a comment behind its first comma in place of the last name |
| Selectors.EarlyForRightIff | src/model_jdl_edit.rs:293-304 | exactly when such a declaration is still answered right for an entity, in every case of exemptions, comment and number of names |
| Selectors.FieldHidesEntity | src/model_jdl_edit.rs:293-304 | a declaration without `except` for one entity, whose one search field starts with `for`, is not taken to be about that entity |
| Selectors.NoteIsMissed | src/model_jdl_edit.rs:293-304 | `use search(fields: [format]) for Note` and `use dto for Note // index` are not taken to be about `Note` |
| Annotations.Frame | src/model_jdl_edit.rs:382-399 | setting an annotation keeps all of the line around the old value; without a closed one it inserts before the first `//`, in a string or not, and the white space in front of it, or before trailing white space, and keeps all of the line |
| Annotations.ReplacesValue | src/model_jdl_edit.rs:384-390 | the first `@name(` of a line, when it is closed, gets the value in place of the one it had |
| Annotations.InsertsBehindCode | src/model_jdl_edit.rs:391-397 | a line without a closed one gets ` @name(value)` right behind its code, in front of the white space before the first `//` or the line's end |
| Annotations.SetReadsBack | src/model_jdl_edit.rs:382-399 | read over the whole line, the value set is the value read if and only if it holds no closing parenthesis and no annotation of that name was left open in the code |
| StringAwareAnnotations.AwareReadsBackIff | src/model_jdl_edit.rs:382-399 | a reader that knows strings and comments finds the annotation that was written, with its value, if and only if the value holds no closing parenthesis and brings in no comment, and the place of writing is in the code, outside strings, with no annotation of that name left open before it |
| StringAwareAnnotations.AwareReadsValue | src/model_jdl_edit.rs:382-399 | and then that reader reads the value |
| StringAwareAnnotations.AwareReadsValueIff | src/model_jdl_edit.rs:382-399 | on a line with at most one annotation of that name, a closed one, and for a value without `@`: it reads the value if and only if that condition holds |
| Annotations.LastSetWins | src/model_jdl_edit.rs:382-399 | setting twice is setting the second value, when the first one holds no closing parenthesis and no annotation of that name was left open in the code |
| StringAwareAnnotations.CommentHidesIt | src/model_jdl_edit.rs:382-399 | when the first closed annotation of that name stands behind the code of the line, that code is as before and has no such annotation outside strings |
| StringAwareAnnotations.CommentTakesIt | src/model_jdl_edit.rs:17-34 | every line whose first annotation of that name stands in its comment and is closed gets the new value there, whatever other annotations its code has; a rename can ask for that |
| StringAwareAnnotations.StringTakesIt | src/model_jdl_edit.rs:391-397 | on every line without that annotation whose first `//` stands in a string, the annotation is written into the string and the line has none |
| StringAwareAnnotations.IdentityInComment | src/model_jdl_edit.rs:25-27 | `title: string // was @id(a)`, given the identity `b`, carries no identity in its code |
| StringAwareAnnotations.IdentityInString | src/model_jdl_edit.rs:25-27 | `site: string @default("https://x")`, given the identity `b`, has its default changed and carries no identity |
| SchemaCompatibility.CompareSchema | src/contract_command.rs:281-322 | the recursive method adds to the findings exactly the breaks of the two trees |
| SchemaFindings.FindsExactly | src/contract_command.rs:281-322 | a finding is made exactly when the same way down both trees, by shared keys and common indices, leads to two nodes with different `type`s, the old one named first, or to an `enum` that lost a value, and it names that way |
| SchemaCompatibility.CleanIffNoBreaks | src/contract_command.rs:281-322 | no finding is produced if and only if the trees are compatible: types kept, enum values kept, and so at every shared key and index |
| SchemaCompatibility.CleanReflexive | src/contract_command.rs:281-322 | a tree is compatible with itself |
| SchemaCompatibility.ComposesIffCovers | src/contract_command.rs:281-322 | for compatible A and B, every C compatible after B is compatible after A if and only if B covers A |
| SchemaCompatibility.Composes | src/contract_command.rs:281-322 | A to B and B to C without findings give A to C without findings when B covers A |
| SchemaCompatibility.Escapes | src/contract_command.rs:281-322 | where B does not cover A there is a C without findings after B and with findings after A |
| SchemaCompatibility.KeepingShapeCovers | src/contract_command.rs:281-322 | keeping keys, array lengths and `type` strings at every depth is enough to cover |
| Contract.CompareItem | src/contract_command.rs:163-192 | the verb loop adds exactly the breaks of one path item |
| ContractFindings.CompatibilityBreaks | src/contract_command.rs:148-200 | errors without `paths` in the baseline, then in the current document; otherwise the findings are exactly what the two documents tell, operation by operation, and empty if and only if the documents are compatible |
| ContractFindings.ReportsExactly | src/contract_command.rs:148-322 | a finding about `METHOD path` is made exactly when the baseline has that operation and the current document has none, or has one that lost a status, asks for a parameter or a body that was not required, has a security list that is new, or has a schema node that tells one |
| ContractFindings.KeptOperation | src/contract_command.rs:163-192 | for every path and HTTP method both documents keep, the findings about it are exactly what its two versions tell |
| ContractFindings.InputFindings | src/contract_command.rs:221-264 | `in:name` is newly required exactly when a parameter of the current operation that reads so is required and none of the baseline is; so for the body |
| Contract.CompatibleIffNoBreaks | src/contract_command.rs:148-322 | the compatibility relation over paths, verbs, responses, required inputs, security and schema is the absence of findings |
| Contract.ResponsesOk | src/contract_command.rs:202-219 | no response finding exactly when every baseline status is still there |
| Contract.Reflexive | src/contract_command.rs:148-200 | a document is compatible with itself |
| Contract.CompatibilityComposes | src/contract_command.rs:148-322 | compatibility of documents composes when every operation kept by the second document covers the first's |
| Contract.CompositionNeedsCover | src/contract_command.rs:281-300 | three documents, each compatible with the one before, of which the last is not compatible with the first |
| OperationCompatibility.OperationComposesIff | src/contract_command.rs:202-322 | for compatible operations A and B, every operation compatible after B is compatible after A if and only if B covers A, counting what the checks of responses, parameters, bodies and security hold fast |
| OperationCompatibility.ContractComposesIff | src/contract_command.rs:148-322 | for compatible contracts A and B, every contract compatible after B is compatible after A if and only if every operation of B covers the one of A |
| PlanDelta.PreviewTree | src/plan_delta.rs:263-297 | the walk over the union of two trees yields the rows in path order and accounts for every path |
| PlanRows.Preview | src/plan_delta.rs:214-341 | the rows, operation by operation, are exactly those the bundle says; unchanged counts exactly the carried paths with equal images |
| PlanRows.RowIff | src/plan_delta.rs:201-341 | which row a path gets, read off the trees, the before-images and the recorded files: a new path of a tree is accepted or created, a differing one written, a retired one deleted; a replaced file is created, written or patched; and only those |
| PlanRows.AcceptIffThere | src/plan_delta.rs:242-284 | a new path is accepted exactly when the base records it with the new bytes, and created otherwise; on the disk the plan was made against, a captured path is accepted exactly when those bytes are there |
| PlanRows.RowsAscend | src/plan_delta.rs:268-272 | the rows of one operation ascend by path, so each path has one at most |
| PlanDelta.EveryChangeIsARow | src/plan_delta.rs:214-341 | after executing any operation list on a disk that matches its before-images, every path that ends different has a row, unless the merge base carries it |
| PlanDelta.AcceptKeepsBytes | src/plan_delta.rs:249-284 | an `accept` row no earlier operation touched leaves its bytes; it leaves the file's mode if and only if the entry's mode is the recorded one |
| PlanDelta.TreeImage | crates/jails-workspace/src/execute.rs:424-485 | publishing a tree leaves the new tree's image under each of its paths, nothing under a retired one, and every other path alone |
| PlanDelta.FileImage | crates/jails-workspace/src/execute.rs:92-130 | any other operation leaves its after-image, or nothing when it removes, under its own path alone |
| PlanDelta.RowsTellTheTruth | src/plan_delta.rs:201-341 | on a matching disk a written or patched path changes, a deleted one was there and goes, an appended one comes |
| PlanDelta.DeletedPaths | src/plan_delta.rs:18-43 | the sweep lists the retired paths of every publication and the removed files, in order |
| PlanRows.SweepIff | src/plan_delta.rs:18-43 | the sweep takes, in path order, exactly the paths a publication retires, of the merge base too, and the removed files |
| PlanDelta.SweepIsTheDeleteRows | src/plan_delta.rs:14-43 | the sweep equals the paths of the `delete` rows, as a sequence, if and only if no publication of the merge base retires a path |
| PlanDelta.SweepCoversRows | src/plan_delta.rs:14-43 | the sweep is never shorter than the `delete` rows |
| PlanDelta.Summary | src/plan_delta.rs:87-117 | the line counts the verbs in their fixed order, then what was left alone |
| PlanDelta.SummaryAddsUp | src/plan_delta.rs:87-117 | the line names, in its fixed order, exactly the verbs that have rows with their number, and last the paths left alone, if any; the counts add up to the rows plus unchanged |
| PlanDelta.JsonFiles | src/model_generate/report.rs:182-194 | the idle form lists no file and keeps the total of files and unchanged; otherwise both are the preview's |
| PathOrder.AscendingIsUnique | src/plan_delta.rs:268-272 | a set of paths has one ascending order, so the row order is determined |
| PathOrder.LessIsLexicographic | src/plan_delta.rs:268-272 | the order is the lexicographic one |
| TextualRename.MovesAreInjective | crates/jails-support/src/identifier.rs:125-136 | two files that move never move onto each other |
| TextualRename.RenamedPathIs | crates/jails-support/src/identifier.rs:125-136 | a Java file moves when its name is the type's or that with `Test`, `Tests` or `IT` behind it, and keeps the ending; nothing else moves |
| TextualRename.Collect | src/rename_source.rs:46-73 | collects exactly the concerned files with their updated text and destination, or refuses exactly when some destination exists already, readable or not |
| TextualRename.FileSystem.Run | src/rename_source.rs:46-131 | refused or pretended runs change nothing; exactly the readable files that are not managed and name the type or move are rewritten; each refusal has its exact condition; every state of an executed run is recoverable and its last state is the planned one |
| TextualRename.WriteStep | src/rename_source.rs:121-123 | after any number of writes every file is readable, as it was or under its destination, and no other path has changed |
| TextualRename.RemoveStep | src/rename_source.rs:124-128 | so it is after any number of removals |
| TextualRename.RemovalSparesDestinations | src/rename_source.rs:124-128 | no removal deletes a written destination |
| TextualRename.PlannedIsUnique | src/rename_source.rs:119-128 | the planned disk is determined by the first one and the rewrites |
| TableLineage.AddEarlierNames | src/model_status.rs:286-300 | one migration adds exactly the names it renames to the current one, once each |
| TableLineage.WalkName | src/model_status.rs:282-301 | one round of the worklist adds exactly the direct predecessors of one name |
| TableLineage.RenameOfIff | src/model_status.rs:288-296 | a line renames `a` to `b` exactly when `a` is the last word before its first ` rename to ` and `b` is what follows without the white space around it and the semicolons behind it |
| TableLineage.BecomesIffBecame | src/model_status.rs:277-302 | reachability is a chain of names, each stated by a line of a captured migration to become the next |
| TableLineage.Lineage | src/model_status.rs:277-302 | terminates on every history, cyclic renames included, with exactly the duplicate-free names from which a chain of such lines leads to the table |
| TableLineage.CollectMigrations | src/model_status.rs:303-315 | lists, in order, the captured records that mention a name, and reports a record that was not captured |
| TableLineage.VersionsInOrder | src/model_status.rs:303-315 | the versions listed are those of the records that are listed, in record order |
| TableLineage.MigrationHistory | src/model_status.rs:264-323 | a stored entity lists, in order, exactly the migrations in which the table or a name that became it stands; the authority is unknown, absent or present accordingly |
| LspFraming.Reader.ReadLine | src/lsp.rs:312-318 | takes one line off the stream |
| LspFraming.Reader.ReadMessage | src/lsp.rs:309-346 | takes exactly one message off the stream, or reports its end, a missing length, a short body or bytes that are not UTF-8 |
| LspFraming.LengthParses | src/lsp.rs:327-327 | the decimal length that is written parses as itself |
| LspFraming.OtherHeadersDoNotMatter | src/lsp.rs:309-346 | headers before or after `Content-Length`, in either spelling, do not change what is read |
| LspHeaders.LastLengthDecides | src/lsp.rs:309-346 | for any headers and a blank line, ended with any carriage returns: the last length header decides; without one, or with one that is no number, the message is refused, as are a short body and one that is not UTF-8; otherwise exactly that many bytes are the body |
| LspHeaders.HeadersCanFail | src/lsp.rs:312-320 | a header line that is not UTF-8 breaks the session; a stream that ends before the blank line is its end |
| LspHeaders.ParsesIffSpelled | src/lsp.rs:327-327 | a length parses exactly when it is digits of a 64-bit number, with a plus sign or none and white space around |
| LspFraming.FrameReadsBack | src/lsp.rs:309-355 | a written message reads back whole and the rest of the stream is left unread |
| LspFraming.StreamReadsBack | src/lsp.rs:309-355 | a stream of written messages reads as the bodies in order, and then as the rest of the stream |
| Bytes.Utf8HasNoFF | src/editor_command.rs:471-471 | valid UTF-8 holds no 0xFF byte |
| Bytes.ValidIffEncoded | src/lsp.rs:343-345 | bytes are UTF-8 exactly when they are Unicode scalar values encoded one after the other (section 3 of RFC 3629) |
| LspServer.Server.PublishFor | src/lsp.rs:192-197 | publishes the diagnostics of the text held, and nothing for a document not held |
| LspServer.Server.Notify | src/lsp.rs:138-167 | open and change hold the text and publish its diagnostics, close drops it and publishes none, anything else does nothing |
| LspServer.Server.Request | src/lsp.rs:102-135 | answers without touching the buffers; only `initialize` and `shutdown` change the session |
| LspServer.Server.Handle | src/lsp.rs:75-95 | one message: its notifications first, then one response when it carries an id |
| LspServer.Serve | src/lsp.rs:66-98 | the output is the run over the parsed messages up to `exit`, and a framing failure ends it |
| LspServer.DiagnosticsTrackBuffers | src/lsp.rs:66-197 | over every run the last diagnostics published for a URI are those of the text now held for it, or empty once it is closed, and none before it was opened |
| LspConversation.EventIff | src/lsp.rs:246-277 | a message holds a text exactly when it is a `didOpen` with the document's `text` or a `didChange` whose last change has that `text`, and closes a document exactly when it is its `didClose` |
| LspConversation.SentIsHeldAndShown | src/lsp.rs:66-197 | over every run, after the last such text of a document that text is held and its diagnostics are the ones shown |
| LspConversation.ClosedIsCleared | src/lsp.rs:152-163 | after its `didClose` nothing is held and no diagnostics are shown |
| LspConversation.UnspokenIsUnknown | src/lsp.rs:66-197 | of a document no message spoke of nothing is held and nothing was published |
| LspConversation.RequestIsAnswered | src/lsp.rs:102-244 | completion, hover and definition are answered for the held text, the `line` and the `character` of the request, in that order, or for no place when there is none |
| LspConversation.OtherRequests | src/lsp.rs:102-135 | the handshake loads the project, the shutdown is noted, and an unknown method is refused after what it says of a buffer |
| LspConversation.ActsUpToExit | src/lsp.rs:66-80 | exactly the messages before the first `exit` are acted on, bodies that are not JSON being skipped |
| LspServer.EveryIdIsAnswered | src/lsp.rs:86-95 | over every run each message with an id gets exactly one response, in arrival order |
| EditorText.WordAt | src/lsp/document.rs:65-87 | the run of word characters that reaches the cursor, with the `@` in front of it |
| EditorText.WordSpanIs | src/lsp/document.rs:65-87 | the whole maximal word around the column, with the `@` if one stands right in front of it |
| EditorText.OneWordOneAnswer | src/lsp/document.rs:65-87 | every column inside a word, at its end or just after its `@` answers with the same word |
| EditorText.WordsDoNotOverlap | src/lsp/document.rs:65-87 | two columns answer with the same word or with words that do not overlap |
| EditorText.Subsequence | src/editor_command.rs:520-536 | the one greedy pass answers whether the needle's characters occur in order at any increasing positions, ASCII case aside |
| PercentEncoding.Unescape | src/lsp/document.rs:22-42 | the cursor loop decodes byte by byte, escapes at the very end included |
| PercentEncoding.DecodeStep | src/lsp/document.rs:22-42 | `%` and two hexadecimal digits of either case are one byte, a plus sign counting as zero in front |
| PercentEncoding.DecodeOther | src/lsp/document.rs:22-42 | any other byte stands for itself |
| PercentEncoding.DecodeEncode | src/tool_command.rs:367-378 | decoding undoes encoding for every byte string |
| PercentEncoding.EncodingIsInjective | src/tool_command.rs:367-378 | two values with the same encoding are equal |
| PercentEncoding.EncodeByte | src/tool_command.rs:367-378 | byte by byte: letters, digits and `-._~` as they are, every other byte as `%` and its two upper-case digits |
| PercentEncoding.EncodingIsCanonical | src/tool_command.rs:367-378 | the output holds only unreserved characters and upper-case escapes of others (sections 2.1 and 2.3 of RFC 3986), so no brace |
| PercentEncoding.CanonicalIffEncoded | src/tool_command.rs:367-378 | a string is canonical if and only if it is what encoding its decoding gives |
| PathTemplate.SubstitutePath | src/tool_command.rs:351-365 | terminates; equals one left-to-right expansion of the original path, leaves no open brace, and succeeds if and only if every brace is closed and the parameters are exactly the variables; otherwise it reports the first failure of that expansion or the least unused name |
| PathTemplate.ExpandSucceeds | src/tool_command.rs:351-365 | expansion succeeds exactly when every brace is closed and every variable has a value |
| PathTemplate.ExpandFills | src/tool_command.rs:351-365 | literal text is kept and every variable is replaced by its encoded value, part by part |
| PathTemplate.FirstFailure | src/tool_command.rs:354-358 | the first variable without a value is the one reported, whatever stands behind it; an unclosed brace is reported when every variable before it has a value |
| DigestFraming.FrameInput | src/editor_command.rs:466-472 | path, NUL, body and 0xFF of every file, in order |
| DigestFraming.OneMoreFile | src/editor_command.rs:466-472 | one more file adds its path, a zero byte, its body and a byte of all ones |
| DigestFraming.EntriesReadBack | src/editor_command.rs:466-472 | the framed bytes read back as the files, for NUL-free paths and 0xFF-free bodies |
| DigestFraming.FramingIsInjective | src/editor_command.rs:466-472 | different lists of such files never give the same bytes |
| DigestFraming.FileMapsAreTold | src/editor_command.rs:446-472 | two maps from NUL-free paths to UTF-8 bodies give the same bytes if and only if they are equal |
| DigestFraming.OnlyListIff | src/editor_command.rs:466-472 | a list of files with text paths is the only one with its bytes if and only if it is empty, or one file whose body does not split |
| DigestFraming.SplitsIff | src/editor_command.rs:466-472 | a body splits exactly when valid UTF-8 stands somewhere between an 0xFF and a NUL |
| DigestFraming.OnlyMapIff | src/editor_command.rs:446-472 | a map of files with text paths is the only one with its bytes if and only if it is empty, or one file whose body does not hold, between an 0xFF and a NUL, a text path that sorts behind its own |
| DigestFraming.SeamDoesNotShow | src/editor_command.rs:466-472 | any two files in a row give the bytes of one file whose body holds the seam |
| DigestFraming.BinaryMapsCollide | src/editor_command.rs:446-472 | for any two paths in order and any two bodies, the map of both files and a map of one file give the same bytes |
| Argv.ShellReadsBack | src/tool_command.rs:438-452 | a shell that splits at blanks and knows single quotes and backslash (section 2.2 of the POSIX Shell Command Language) reads back the program and every argument that is not empty |
| Argv.ArgvSurvivesIffNonEmpty | src/tool_command.rs:438-452 | the whole argv is read back if and only if no argument is empty |
| Argv.QuotedIs | src/tool_command.rs:438-450 | an argument of letters, digits and `-._/:=@<>` is printed as it is, any other between single quotes |
| Argv.OneMoreWord | src/tool_command.rs:438-452 | one more argument is one space and that argument |
| Argv.ConfigReadsBack | src/tool_command.rs:434-436 | a header written between double quotes reads back whole, and the quote that ends it is the closing one |
| Argv.TwoPassesPerByte | src/tool_command.rs:434-436 | a backslash before each backslash and each double quote, every other byte as it is |

## Left out

- WholeWord.NamesIdentifier: takes the Unicode test for word characters as a parameter.
- IdentifierEdit.ReplaceIdentifier: does not model the empty search text, on which the loop of the source does not end.
- SpanEdits.ApplyEdits: does not model the error for an edit outside the source, because the spans come from the parsed document.
- ProjectionRemoval.RemoveProjection: does not model the parse failure of an edited source.
- PercentEncoding.Unescape: does not model the lossy UTF-8 conversion of the decoded bytes.
- LspFraming.Reader.ReadMessage: trims ASCII white space only around the length, names the failure on a header that is not UTF-8 as on a body, and does not model read errors.
- EditorText.WordAt: takes the test for word characters as a parameter.
- TextualRename.FileSystem.Run: takes the update of one file's text as a parameter, names a Java file by directory and stem, and does not model write errors.
- PlanRows.Preview: reads a tree that is missing from the bundle as empty, as the source does; the executor's refusal of such a bundle is not modelled.
- ContractFindings.CompatibilityBreaks: findings are values rather than formatted sentences; parsing the JSON text is not modelled.
- The parser, the linker, rendering, the formatter and the capture of a workspace.
- `set_field_type`, `set_field_required`, `rewrite_field` and `replace_type_token`: one-line edits of a located member.
- `set_marker` when it enables, `set_projection`, `add_facets` and `widen_enum`: they insert a member through the parser's crate.
- The executor's preconditions, staging, fault points and removal of empty directories; only its effect on files is modelled.
- The consistency report of an entity beside its migrations: a table over three flags.
- `model_hunk`, `lines`, `unified_diff` and every other human or JSON rendering.
- Hashing, clocks, prompts, git, curl, Docker, Maven and Gradle.
