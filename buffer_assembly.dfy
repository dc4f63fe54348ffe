/** `perform(with:completionHandler:)`: the selection guard, the derivations,
    and the edit of the editor buffer. The buffer has two views that the host
    keeps in step; here they are two separate fields, and each gets its own
    postcondition. */
module BufferAssembly {
  import opened Wrappers
  import opened StringExtension
  import opened SourceEditorCommand

  /** The part of the invocation's buffer the command reads and edits. */
  class SourceTextBuffer {
    var completeBuffer: string
    var lines: seq<string>
    var selectionCount: nat

    /** `lines.insert(line, at: index)`. */
    method InsertLine(line: string, index: nat)
      requires index <= |lines|
      modifies this
      ensures lines == old(lines)[..index] + [line] + old(lines)[index..]
      ensures completeBuffer == old(completeBuffer) && selectionCount == old(selectionCount)
    {
      lines := lines[..index] + [line] + lines[index..];
    }
  }

  /** `lines.first(where: { $0.contains(pat) })`. */
  function FirstLineContaining(lines: seq<string>, pat: string): (line: Option<string>)
    ensures line.None? <==> forall i | 0 <= i < |lines| :: !Contains(lines[i], pat)
    ensures line.Some? ==> line.value in lines && Contains(line.value, pat)
    ensures line.Some? ==>
      forall i | 0 <= i < |lines| && Contains(lines[i], pat) :: line.value in lines[..i + 1]
  {
    if lines == [] then None
    else if Contains(lines[0], pat) then Some(lines[0])
    else
      var line := FirstLineContaining(lines[1..], pat);
      FirstLineContainingStep(lines, pat, line);
      line
  }

  /** The recursive case of FirstLineContaining: a line found after a first
      line without the pattern comes no later than any line with it. */
  lemma FirstLineContainingStep(lines: seq<string>, pat: string, line: Option<string>)
    requires lines != [] && !Contains(lines[0], pat)
    requires line.Some? ==>
      forall i | 0 <= i < |lines[1..]| && Contains(lines[1..][i], pat) :: line.value in lines[1..][..i + 1]
    ensures line.Some? ==>
      forall i | 0 <= i < |lines| && Contains(lines[i], pat) :: line.value in lines[..i + 1]
  {
    if line.Some? {
      forall i | 0 <= i < |lines| && Contains(lines[i], pat) ensures line.value in lines[..i + 1] {
        assert i >= 1 && lines[i] == lines[1..][i - 1];
        assert lines[..i + 1] == [lines[0]] + lines[1..][..i];
      }
    }
  }

  /** `lines.firstIndex(of: x)`. */
  function FirstIndexOf<T(==)>(xs: seq<T>, x: T): (index: Option<nat>)
    ensures index.None? <==> x !in xs
    ensures index.Some? ==> index.value < |xs| && xs[index.value] == x && x !in xs[..index.value]
  {
    if xs == [] then None
    else if xs[0] == x then Some(0)
    else
      match FirstIndexOf(xs[1..], x)
      case None => None
      case Some(i) =>
        assert xs[..i + 1] == [xs[0]] + xs[1..][..i];
        Some(i + 1)
  }

  /** `classLineIndex`: the first line containing the word `class`, found by
      taking that line and then its first position among the lines. */
  function ClassLineIndex(lines: seq<string>): (index: Option<nat>)
    ensures index.None? <==> forall i | 0 <= i < |lines| :: !Contains(lines[i], "class")
    ensures index.Some? ==> index.value < |lines| && Contains(lines[index.value], "class")
    ensures index.Some? ==> forall j | 0 <= j < index.value :: !Contains(lines[j], "class")
  {
    match FirstLineContaining(lines, "class")
    case None => None
    case Some(line) =>
      FirstIndexOf(lines, line)
  }

  /** Each signature on its own line, behind one tab. */
  function Indented(functions: seq<string>): (indented: seq<string>)
    ensures |indented| == |functions|
    ensures forall i | 0 <= i < |functions| :: indented[i] == "\t" + functions[i]
  {
    if functions == [] then []
    else ["\t" + functions[0]] + Indented(functions[1..])
  }

  /** The lines the command puts in front of the class line, top to bottom. */
  function ProtocolBlock(protocolName: string, functions: seq<string>, declaration: string): (block: seq<string>)
    ensures |block| == |functions| + 4
    ensures block[0] == "protocol " + protocolName + ": AnyObject {"
    ensures forall i | 0 <= i < |functions| :: block[1 + i] == "\t" + functions[i]
    ensures block[|functions| + 1] == "}" && block[|functions| + 2] == ""
    ensures block[|functions| + 3] == declaration
  {
    ["protocol " + protocolName + ": AnyObject {"] + Indented(functions) + ["}", "", declaration]
  }

  /** Nothing in `perform` traps: the extraction loop, the class-name slice of
      `getProtocolName` and the removal of the declaration from the buffer
      (whose range was found in the stripped text). */
  ghost predicate PerformTrapFree(fm: Matcher, cm: Matcher, selectionCount: int, completeBuffer: string, lines: seq<string>)
    requires SoundMatcher(fm) && SoundMatcher(cm)
  {
    selectionCount > 1 ||
    (ExtractionTrapFree(fm, completeBuffer) &&
     var text := Extract(fm, completeBuffer).rest;
     (cm(text).Some? ==>
        ClassNameSliceOrdered(cm, text) &&
        (ClassLineIndex(lines).Some? ==> RemovalDefined(completeBuffer, cm(text).value))))
  }

  /** `perform(with:completionHandler:)`. With more than one selection, or when
      the stripped text has no declaration, or no line contains `class`, the
      buffer is left as it was. Otherwise the declaration's range (found in the
      stripped text) is removed from the complete text, and at the class line
      the protocol header, the tab-indented signatures in discovery order,
      `}`, an empty line and the rewritten declaration are inserted. */
  method Perform(buffer: SourceTextBuffer, fm: Matcher, cm: Matcher)
    requires SoundMatcher(fm) && SoundMatcher(cm)
    requires PerformTrapFree(fm, cm, buffer.selectionCount, buffer.completeBuffer, buffer.lines)
    modifies buffer
    ensures buffer.selectionCount == old(buffer.selectionCount)
    ensures old(buffer.selectionCount) > 1 ==>
      buffer.completeBuffer == old(buffer.completeBuffer) && buffer.lines == old(buffer.lines)
    ensures old(buffer.selectionCount) <= 1 ==>
      var text := Extract(fm, old(buffer.completeBuffer)).rest;
      cm(text).None? || ClassLineIndex(old(buffer.lines)).None? ==>
        buffer.completeBuffer == old(buffer.completeBuffer) && buffer.lines == old(buffer.lines)
    ensures old(buffer.selectionCount) <= 1 ==>
      var text := Extract(fm, old(buffer.completeBuffer)).rest;
      cm(text).Some? && ClassLineIndex(old(buffer.lines)).Some? ==>
        buffer.completeBuffer == RemoveSubstring(old(buffer.completeBuffer), cm(text).value)
    ensures old(buffer.selectionCount) <= 1 ==>
      var extraction := Extract(fm, old(buffer.completeBuffer));
      var text := extraction.rest;
      var classLineIndex := ClassLineIndex(old(buffer.lines));
      cm(text).Some? && classLineIndex.Some? ==>
        var k := classLineIndex.value;
        var protocolName := GetProtocolName(cm, text);
        var declaration := GetRefactoredClassDeclaration(cm, text, protocolName);
        var block := ProtocolBlock(protocolName, extraction.functions, declaration);
        buffer.lines == old(buffer.lines)[..k] + block + old(buffer.lines)[k..] &&
        |buffer.lines| == |old(buffer.lines)| + |extraction.functions| + 4 &&
        buffer.lines[..k] == old(buffer.lines)[..k] &&
        buffer.lines[k + |block|..] == old(buffer.lines)[k..]
  {
    if buffer.selectionCount > 1 {
      return;
    }

    ghost var completeBuffer0, lines0 := buffer.completeBuffer, buffer.lines;
    var text := buffer.completeBuffer;
    var functions;
    functions, text := GetFunctions(fm, text);
    var classDeclarationRange := GetClassDeclarationRange(cm, text);
    if classDeclarationRange.None? {
      return;
    }
    var protocolName := GetProtocolName(cm, text);
    var refactoredClassDeclaration := GetRefactoredClassDeclaration(cm, text, protocolName);

    var lines := buffer.lines;
    var found := ClassLineIndex(lines);
    if found.None? {
      return;
    }
    var classLineIndex := found.value;

    assert text == Extract(fm, completeBuffer0).rest && classDeclarationRange == cm(text);
    assert lines == lines0 && functions == Extract(fm, completeBuffer0).functions;
    EditBuffer(buffer, classDeclarationRange.value, classLineIndex, protocolName, functions, refactoredClassDeclaration);
  }

  /** Lines 32-39 of `perform`: cut the declaration's range out of the
      complete text and insert the protocol block at the class line. */
  method EditBuffer(buffer: SourceTextBuffer, classDeclarationRange: Range, classLineIndex: nat,
                    protocolName: string, functions: seq<string>, refactoredClassDeclaration: string)
    requires RemovalDefined(buffer.completeBuffer, classDeclarationRange)
    requires classLineIndex <= |buffer.lines|
    modifies buffer
    ensures buffer.completeBuffer == RemoveSubstring(old(buffer.completeBuffer), classDeclarationRange)
    ensures var block := ProtocolBlock(protocolName, functions, refactoredClassDeclaration);
      buffer.lines == old(buffer.lines)[..classLineIndex] + block + old(buffer.lines)[classLineIndex..] &&
      |buffer.lines| == |old(buffer.lines)| + |functions| + 4 &&
      buffer.lines[..classLineIndex] == old(buffer.lines)[..classLineIndex] &&
      buffer.lines[classLineIndex + |block|..] == old(buffer.lines)[classLineIndex..]
    ensures buffer.selectionCount == old(buffer.selectionCount)
  {
    buffer.completeBuffer := RemoveSubstring(buffer.completeBuffer, classDeclarationRange);
    ghost var lines := buffer.lines;
    InsertProtocolBlock(buffer, classLineIndex, protocolName, functions, refactoredClassDeclaration);
    SplicedLines(lines, classLineIndex, ProtocolBlock(protocolName, functions, refactoredClassDeclaration));
  }

  /** Lines 33-39 of `perform`: the insertions, all at the class line, in the
      reverse of their final order. */
  method InsertProtocolBlock(buffer: SourceTextBuffer, classLineIndex: nat, protocolName: string,
                             functions: seq<string>, refactoredClassDeclaration: string)
    requires classLineIndex <= |buffer.lines|
    modifies buffer
    ensures buffer.lines == old(buffer.lines)[..classLineIndex] +
      ProtocolBlock(protocolName, functions, refactoredClassDeclaration) + old(buffer.lines)[classLineIndex..]
    ensures buffer.completeBuffer == old(buffer.completeBuffer)
    ensures buffer.selectionCount == old(buffer.selectionCount)
  {
    ghost var lines := buffer.lines;
    ghost var head := lines[..classLineIndex];
    ghost var rest := lines[classLineIndex..];
    assert lines == head + rest;
    InsertedAfter(head, refactoredClassDeclaration, rest);
    buffer.InsertLine(refactoredClassDeclaration, classLineIndex);
    InsertedAfter(head, "", [refactoredClassDeclaration] + rest);
    buffer.InsertLine("", classLineIndex);
    InsertedAfter(head, "}", ["", refactoredClassDeclaration] + rest);
    buffer.InsertLine("}", classLineIndex);
    ghost var tail := ["}", "", refactoredClassDeclaration] + rest;
    // `functions.reversed().forEach`: the last signature goes in first
    for i := |functions| downto 0
      invariant buffer.lines == head + (Indented(functions[i..]) + tail)
      invariant buffer.completeBuffer == old(buffer.completeBuffer)
      invariant buffer.selectionCount == old(buffer.selectionCount)
    {
      InsertedAfter(head, "\t" + functions[i], Indented(functions[i + 1..]) + tail);
      IndentedFrom(functions, i);
      buffer.InsertLine("\t" + functions[i], classLineIndex);
    }
    var header := "protocol " + protocolName + ": AnyObject {";
    InsertedAfter(head, header, Indented(functions) + tail);
    buffer.InsertLine(header, classLineIndex);
    ProtocolBlockAssembled(protocolName, functions, refactoredClassDeclaration, head, rest);
  }

  /** Indenting from position `i` on is indenting signature `i`, then the rest. */
  lemma IndentedFrom(functions: seq<string>, i: nat)
    requires i < |functions|
    ensures Indented(functions[i..]) == ["\t" + functions[i]] + Indented(functions[i + 1..])
  {
    assert functions[i..][1..] == functions[i + 1..];
  }

  /** The block as the insertions leave it, regrouped. */
  lemma ProtocolBlockAssembled(protocolName: string, functions: seq<string>, declaration: string,
                               head: seq<string>, rest: seq<string>)
    ensures head + (["protocol " + protocolName + ": AnyObject {"] + (Indented(functions) + (["}", "", declaration] + rest)))
         == head + ProtocolBlock(protocolName, functions, declaration) + rest
  {
  }

  /** One `insert(_:at:)` at the end of `head`. */
  lemma InsertedAfter(head: seq<string>, line: string, rest: seq<string>)
    ensures (head + rest)[..|head|] + [line] + (head + rest)[|head|..] == head + ([line] + rest)
  {
    assert (head + rest)[..|head|] == head;
    assert (head + rest)[|head|..] == rest;
  }

  /** Splicing a block in at `k` keeps the lines before `k`, moves the lines
      from `k` on down by the block's length, and grows the count by it. */
  lemma SplicedLines(lines: seq<string>, k: nat, block: seq<string>)
    requires k <= |lines|
    ensures var spliced := lines[..k] + block + lines[k..];
      |spliced| == |lines| + |block| &&
      spliced[..k] == lines[..k] &&
      spliced[k..k + |block|] == block &&
      spliced[k + |block|..] == lines[k..]
  {
  }
}
