# ProtocolRefactorPlugin in Dafny

ProtocolRefactorPlugin is an Xcode source-editor extension with one command.
The command takes the class in the open file and pulls its method signatures
out into a new protocol. It then makes the class conform to that protocol. For
`class Bar: Baz` it derives the protocol name `BarProtocol` from the class
name. It inserts a block in front of the class line: a
`protocol BarProtocol: AnyObject {` header, one tab-indented line per
signature, a closing `}`, an empty line and the rewritten declaration
`class Bar: Baz, BarProtocol {`.

This project models that command as written in
`ProtocolRefactorExtension/SourceEditorCommand.swift`:

- `wrappers.dfy`: the `Option` type the model uses for Swift optionals.
- `string_extension.dfy` (module `StringExtension`) covers the file's
  `extension String`:
  - `substring(from:)` and `removeSubstring(with:)`, with their off-by-one
    behaviour kept;
  - the literal searches the command uses: `range(of:)`, `contains` and
    `replacingOccurrences(of: " ", with: "")`.

  A `String` is a `seq<char>`. A `Range<String.Index>` is a pair of character
  offsets.
- `source_editor_command.dfy` (module `SourceEditorCommand`) covers the four
  private derivations:
  - `getFunctions` is an imperative loop. It is proved against `Extract`, a
    recursive specification function.
  - `getClassDeclarationRange`, `getProtocolName` and
    `getRefactoredClassDeclaration` are pure functions.

  Each of the two regular-expression searches is a `Matcher`: a function from
  the text to its first match. The model assumes only that a match is
  non-empty and lies inside the text.
- `buffer_assembly.dfy` (module `BufferAssembly`) covers `perform`. The editor
  buffer is a class with three fields: the complete text, the lines, and the
  number of selections. `perform` is a method that edits the buffer in place
  through `lines.insert(_:at:)`, and its contract states the whole new buffer.
- `scenarios.dfy` (module `Scenarios`) works the bare declaration
  `class Bar: Baz` through the derivations. On that text the class pattern
  matches the whole text, offsets 0 to 14. In a file where ` {` follows the
  declaration, the pattern's final ` *` also takes the space before `{`, so
  the rewritten line there reads `class Bar: Baz , BarProtocol {`.

Where the code can trap (an index step before offset 0, a reversed closed
range), the model requires that it does not. Each such condition is a named
predicate:
- `SubstringDefined`;
- `RemovalDefined`;
- `ExtractionTrapFree`;
- `ClassNameSliceOrdered`;
- `PerformTrapFree`.

Behaviour of the code that the model keeps, even where a plain reading of the
command's purpose would expect otherwise:

- `removeSubstring(with:)` also removes the character just before the range.
  That character is the one at `lowerBound - 1`.
- `substring(from:)` on an empty range at offset 0 of a non-empty string
  returns the first character. This happens because the end distance is
  clamped to 0 and the range is closed.
- `getProtocolName` ends the class name at the first `:` if there is one,
  else at the first `{`, else at the end. It does not take whichever of the
  two comes first.
- `perform` finds the class declaration in the text with the signatures
  already cut out. It then removes that range from the unstripped complete
  buffer, so the removal can hit different characters.
- The inserts put `}` above the empty line, and the empty line above the
  declaration.

## Model

| member | source | states |
|---|---|---|
| StringExtension.Substring | ProtocolRefactorExtension/SourceEditorCommand.swift:94-109 | outside the string the result is empty; for a non-empty range it has the range's length and its i-th character is the string's character at lowerBound + i; an empty range yields the string's first character |
| StringExtension.RemoveSubstring | ProtocolRefactorExtension/SourceEditorCommand.swift:111-125 | outside the string nothing changes; otherwise the result is shorter by the range's length plus one, keeps every character before lowerBound - 1, and continues with the characters from upperBound on |
| StringExtension.RemovedTextReassembles | ProtocolRefactorExtension/SourceEditorCommand.swift:94-125 | removal and substring together lose nothing: the original is the kept left side, the one extra character before the range, the range's substring and the kept right side |
| StringExtension.FindFrom | ProtocolRefactorExtension/SourceEditorCommand.swift:68-71 | a found offset is an occurrence at or after the start and no earlier offset from the start is one; none found means no occurrence from the start on |
| StringExtension.FindFirst | ProtocolRefactorExtension/SourceEditorCommand.swift:68-71 | the result is the leftmost occurrence of a non-empty pattern; none means the pattern occurs nowhere |
| StringExtension.RemoveSpaces | ProtocolRefactorExtension/SourceEditorCommand.swift:73 | the result has no space and every other character occurs in it exactly as often as in the input |
| StringExtension.RemoveSpacesAppend | ProtocolRefactorExtension/SourceEditorCommand.swift:73 | removing spaces distributes over concatenation |
| StringExtension.RemoveSpacesKeepsSpaceless | ProtocolRefactorExtension/SourceEditorCommand.swift:73 | a string without spaces is returned unchanged |
| SourceEditorCommand.Extract | ProtocolRefactorExtension/SourceEditorCommand.swift:44-57 | the loop's result: the matcher finds nothing in the rest, every signature is non-empty, and the text's length is the rest's plus one more than each signature's |
| SourceEditorCommand.GetFunctions | ProtocolRefactorExtension/SourceEditorCommand.swift:44-57 | the loop returns exactly Extract's signatures and leaves exactly Extract's rest, on which the matcher finds nothing |
| SourceEditorCommand.ExtractStep | ProtocolRefactorExtension/SourceEditorCommand.swift:49-51 | one iteration neither traps nor fails to shrink the text, and it moves the first signature from what is left to find into what was collected |
| SourceEditorCommand.Stage | ProtocolRefactorExtension/SourceEditorCommand.swift:48-55 | after i iterations the loop still has to find exactly the signatures after the first i and ends at the same rest |
| SourceEditorCommand.ExtractedInDiscoveryOrder | ProtocolRefactorExtension/SourceEditorCommand.swift:48-55 | the i-th collected signature is the substring of the match found in the text after i iterations |
| SourceEditorCommand.StageAdvances | ProtocolRefactorExtension/SourceEditorCommand.swift:48-55 | each iteration cuts its match, with the character before it, out of the text it searched |
| SourceEditorCommand.ExtractionEndsAtRest | ProtocolRefactorExtension/SourceEditorCommand.swift:48-56 | after as many iterations as signatures the text is the rest and the loop stops there |
| SourceEditorCommand.GetClassDeclarationRange | ProtocolRefactorExtension/SourceEditorCommand.swift:59-61 | a found declaration range is non-empty and lies inside the text |
| SourceEditorCommand.ClassText | ProtocolRefactorExtension/SourceEditorCommand.swift:67 | the declaration text is exactly the characters the declaration range covers |
| SourceEditorCommand.ClassNameEnd | ProtocolRefactorExtension/SourceEditorCommand.swift:71 | the end is the first `:` when there is one; otherwise it is the first `{` when there is one; otherwise it is the end of the declaration |
| SourceEditorCommand.GetProtocolName | ProtocolRefactorExtension/SourceEditorCommand.swift:63-75 | the name is empty exactly when there is no declaration or it lacks `class `; otherwise it is the space-free slice from after `class ` to the name's end, followed by `Protocol`, and it holds no `:` |
| SourceEditorCommand.ProtocolSuffixed | ProtocolRefactorExtension/SourceEditorCommand.swift:73-74 | appending `Protocol` to a squeezed slice without `:` gives a name ending in `Protocol`, whose prefix is the squeezed slice and which has no `:` |
| SourceEditorCommand.GetRefactoredClassDeclaration | ProtocolRefactorExtension/SourceEditorCommand.swift:77-90 | without a declaration the result is empty; otherwise it is the declaration text, then `, ` if it has a `:` and `: ` if not, then the protocol name, then ` {` |
| SourceEditorCommand.RefactoredDeclarationColons | ProtocolRefactorExtension/SourceEditorCommand.swift:63-90 | with the derived name, a declaration without a conformance list gains exactly one `:`, and one with a list gains none |
| SourceEditorCommand.AppendedColons | ProtocolRefactorExtension/SourceEditorCommand.swift:84-88 | the appended text adds a `:` only through the `: ` separator |
| BufferAssembly.SourceTextBuffer.InsertLine | ProtocolRefactorExtension/SourceEditorCommand.swift:33 | the line lands at the index, every line before it stays, every line from the index on moves down one, and the other fields stay |
| BufferAssembly.FirstLineContaining | ProtocolRefactorExtension/SourceEditorCommand.swift:29 | none exactly when no line contains the pattern; a found line is one of the lines, contains the pattern and occurs no later than any line containing it |
| BufferAssembly.FirstLineContainingStep | ProtocolRefactorExtension/SourceEditorCommand.swift:29 | a line found after a first line without the pattern still comes no later than any line with it |
| BufferAssembly.FirstIndexOf | ProtocolRefactorExtension/SourceEditorCommand.swift:30 | none exactly when the element is absent; otherwise the index holds the element and no earlier index does |
| BufferAssembly.ClassLineIndex | ProtocolRefactorExtension/SourceEditorCommand.swift:29-30 | none exactly when no line contains `class`; otherwise the index's line contains it and no earlier line does |
| BufferAssembly.Indented | ProtocolRefactorExtension/SourceEditorCommand.swift:36-38 | one line per signature, each the signature behind a tab, in the same order |
| BufferAssembly.ProtocolBlock | ProtocolRefactorExtension/SourceEditorCommand.swift:33-39 | the block is the protocol header, then each signature behind a tab in discovery order, then `}`, an empty line and the rewritten declaration |
| BufferAssembly.Perform | ProtocolRefactorExtension/SourceEditorCommand.swift:13-42 | the selection count never changes; with several selections, no declaration in the stripped text or no `class` line, the buffer stays as it was; otherwise the declaration range is removed from the complete text and the protocol block is spliced in at the class line, keeping every other line in order |
| BufferAssembly.EditBuffer | ProtocolRefactorExtension/SourceEditorCommand.swift:32-39 | the complete text loses the range; the lines gain the protocol block at the class line, with the lines before it kept and the lines after it moved down by the block's length |
| BufferAssembly.InsertProtocolBlock | ProtocolRefactorExtension/SourceEditorCommand.swift:33-39 | inserting the declaration, the empty line, `}`, the signatures in reverse and the header, all at one index, leaves the block in reading order at that index |
| BufferAssembly.IndentedFrom | ProtocolRefactorExtension/SourceEditorCommand.swift:36-38 | indenting from a position on is that signature's line followed by the indented rest |
| BufferAssembly.ProtocolBlockAssembled | ProtocolRefactorExtension/SourceEditorCommand.swift:33-39 | the lines the insertions leave are the protocol block between the kept head and tail |
| BufferAssembly.InsertedAfter | ProtocolRefactorExtension/SourceEditorCommand.swift:33-39 | an insertion at the head's length puts the line between head and rest |
| BufferAssembly.SplicedLines | ProtocolRefactorExtension/SourceEditorCommand.swift:33-39 | splicing a block in keeps the earlier lines, places the block, moves the later lines down and grows the count by the block's length |
| Scenarios.FixedMatch | ProtocolRefactorExtension/SourceEditorCommand.swift:59-61 | a matcher reporting one fixed non-empty range on every text long enough is sound |
| Scenarios.SubclassScenario | ProtocolRefactorExtension/SourceEditorCommand.swift:24-26 | for `class Bar: Baz` with its match 0 to 14, the name is `Bar` followed by `Protocol`, and the declaration rewritten with that derived name is `class Bar: Baz, ` followed by the name and ` {` |
| Scenarios.SubclassSliceOrdered | ProtocolRefactorExtension/SourceEditorCommand.swift:68-73 | in `class Bar: Baz` the end of `class ` comes no later than the name's end, so the slice does not trap |
| Scenarios.SubclassProtocolName | ProtocolRefactorExtension/SourceEditorCommand.swift:63-75 | the name derived from `class Bar: Baz` is `Bar` followed by `Protocol` |
| Scenarios.SubclassNameSqueezed | ProtocolRefactorExtension/SourceEditorCommand.swift:73 | the scenario's name slice `Bar` has no spaces to remove |
| Scenarios.ProtocolNameFromParts | ProtocolRefactorExtension/SourceEditorCommand.swift:67-74 | once the declaration text, the end of `class `, the name's end and the squeezed slice are known, the name is the squeezed slice followed by `Protocol` |
| Scenarios.ProtocolNameFromSlice | ProtocolRefactorExtension/SourceEditorCommand.swift:67-74 | whenever `class ` occurs in the declaration, the name is exactly the squeezed slice followed by `Protocol` |
| Scenarios.SubclassDeclaration | ProtocolRefactorExtension/SourceEditorCommand.swift:77-90 | `class Bar: Baz` has a `:`, so any protocol name goes after a comma and is followed by ` {` |
| Scenarios.SubclassDeclarationText | ProtocolRefactorExtension/SourceEditorCommand.swift:67 | the matched declaration text of the scenario is the whole text `class Bar: Baz` |
| Scenarios.SubclassNameBounds | ProtocolRefactorExtension/SourceEditorCommand.swift:68-71 | in `class Bar: Baz`, `class ` starts at 0, and both the first `:` and the name's end are at 9 |
| Scenarios.ColonSearch | ProtocolRefactorExtension/SourceEditorCommand.swift:71 | a search for `:` started at any offset up to the first colon finds that colon |

## Left out

- The completion handler is not modelled. The early returns at lines 22, 28
  and 30 never call it, and the model says nothing about whether it is called.
- The host keeps `completeBuffer` and `lines` in step, and that is not
  modelled. The two views are independent fields, each with its own
  postcondition.
- The XcodeKit plumbing is not modelled. The invocation becomes the buffer,
  and the selections are reduced to their count. The `as? [String]` cast on
  line 28 always succeeds in the model.
- The two regular expressions are not modelled as regular expressions. They
  are the matcher parameters, of which only soundness is required: a match is
  non-empty and in bounds. Properties that hinge on what the patterns accept
  are therefore not stated.
- Swift's grapheme-cluster `Character`s and `String.Index` are not modelled.
  A character is one `char` and an index is an integer offset.
- Every path on which the Swift code traps is excluded by a precondition
  rather than modelled as a crash.
- The scenario file uses a fixed-range matcher in place of the class
  pattern. The range 0 to 14 is what that pattern matches on `class Bar: Baz`,
  but the model does not derive it from the pattern.
