/** The derivations of `SourceEditorCommand`: signature extraction
    (`getFunctions`), the class locator (`getClassDeclarationRange`), the
    protocol namer (`getProtocolName`) and the declaration rewriter
    (`getRefactoredClassDeclaration`).
    The two regular-expression searches of the source are not modelled as
    regular expressions: each is a `Matcher`, a function from the text to the
    range of its first match, of which only soundness is assumed. */
module SourceEditorCommand {
  import opened Wrappers
  import opened StringExtension

  /** `text.range(of: pattern, options: .regularExpression)` for a fixed pattern. */
  type Matcher = string -> Option<Range>

  /** A match lies inside the searched text and is not empty (both patterns
      require at least the literal `func` or `class`). */
  ghost predicate SoundMatcher(m: Matcher) {
    forall s :: MatchIn(s, m(s))
  }

  /** No match, or a non-empty match inside `s`. */
  predicate MatchIn(s: string, match_: Option<Range>) {
    match_.Some? ==> 0 <= match_.value.lowerBound < match_.value.upperBound <= |s|
  }

  // ---------------------------------------------------------------- getFunctions

  /** The signatures collected, in discovery order, and the text left once the
      matcher finds nothing more. */
  datatype Extraction = Extraction(functions: seq<string>, rest: string)

  /** Characters one removal takes per extracted signature: the signature and
      the character in front of it. */
  function RemovedLength(functions: seq<string>): nat {
    if functions == [] then 0 else |functions[0]| + 1 + RemovedLength(functions[1..])
  }

  /** No iteration of the extraction loop traps: every match the loop meets
      starts at offset 1 or later, so `removeSubstring` can step back. */
  ghost predicate ExtractionTrapFree(m: Matcher, text: string)
    requires SoundMatcher(m)
    decreases |text|
  {
    match m(text)
    case None => true
    case Some(r) => r.lowerBound >= 1 && ExtractionTrapFree(m, RemoveSubstring(text, r))
  }

  /** What the extraction loop computes from `text`, one match at a time. */
  ghost function Extract(m: Matcher, text: string): (e: Extraction)
    requires SoundMatcher(m) && ExtractionTrapFree(m, text)
    ensures m(e.rest).None?
    ensures |text| == |e.rest| + RemovedLength(e.functions)
    ensures forall i | 0 <= i < |e.functions| :: |e.functions[i]| > 0
    decreases |text|
  {
    match m(text)
    case None => Extraction([], text)
    case Some(r) =>
      var tail := Extract(m, RemoveSubstring(text, r));
      Extraction([Substring(text, r)] + tail.functions, tail.rest)
  }

  /** `getFunctions(from: &text)`: while the matcher finds a signature, record
      it and cut it (with the character before it) out of the text. The
      in-out `text` is the pair of the parameter and the result `rest`. */
  method GetFunctions(fm: Matcher, text: string) returns (functions: seq<string>, rest: string)
    requires SoundMatcher(fm) && ExtractionTrapFree(fm, text)
    ensures functions == Extract(fm, text).functions && rest == Extract(fm, text).rest
    ensures fm(rest).None?
    ensures |text| == |rest| + RemovedLength(functions)
  {
    functions := [];
    rest := text;
    var more := true;
    while more
      invariant ExtractionTrapFree(fm, rest)
      invariant Extract(fm, text).functions == functions + Extract(fm, rest).functions
      invariant Extract(fm, text).rest == Extract(fm, rest).rest
      invariant !more ==> fm(rest).None?
      decreases |rest| + (if more then 1 else 0)
    {
      var range := fm(rest);
      if range.Some? {
        ExtractStep(fm, rest, functions);
        functions := functions + [Substring(rest, range.value)];
        rest := RemoveSubstring(rest, range.value);
      } else {
        more := false;
      }
    }
  }

  /** One unfolding of Extract at a text where the matcher finds something,
      after the signatures `done` were already collected. */
  lemma ExtractStep(m: Matcher, text: string, done: seq<string>)
    requires SoundMatcher(m) && ExtractionTrapFree(m, text) && m(text).Some?
    ensures SubstringDefined(text, m(text).value) && RemovalDefined(text, m(text).value)
    ensures var r := m(text).value;
      var remaining := RemoveSubstring(text, r);
      |remaining| < |text| &&
      ExtractionTrapFree(m, remaining) &&
      done + Extract(m, text).functions == (done + [Substring(text, r)]) + Extract(m, remaining).functions &&
      Extract(m, text).rest == Extract(m, remaining).rest
  {
    assert MatchIn(text, m(text));
    var r := m(text).value;
    var remaining := RemoveSubstring(text, r);
    assert Extract(m, text).functions == [Substring(text, r)] + Extract(m, remaining).functions;
  }

  /** The text the loop works on after `i` iterations; from there the loop
      still has to find exactly the signatures after the first `i`. */
  ghost function Stage(m: Matcher, text: string, i: nat): (stage: string)
    requires SoundMatcher(m) && ExtractionTrapFree(m, text)
    requires i <= |Extract(m, text).functions|
    ensures ExtractionTrapFree(m, stage)
    ensures Extract(m, stage).functions == Extract(m, text).functions[i..]
    ensures Extract(m, stage).rest == Extract(m, text).rest
    decreases i
  {
    if i == 0 then text
    else Stage(m, RemoveSubstring(text, m(text).value), i - 1)
  }

  /** Discovery order: the `i`-th signature is the text of the match found in
      the `i`-th stage ... */
  lemma ExtractedInDiscoveryOrder(m: Matcher, text: string, i: nat)
    requires SoundMatcher(m) && ExtractionTrapFree(m, text)
    requires i < |Extract(m, text).functions|
    ensures var stage := Stage(m, text, i);
      m(stage).Some? && Extract(m, text).functions[i] == Substring(stage, m(stage).value)
  {
    var stage := Stage(m, text, i);
    assert Extract(m, stage).functions != [];
    ExtractStep(m, stage, []);
    assert Extract(m, text).functions[i] == Extract(m, stage).functions[0];
  }

  /** ... and the next stage is that stage with the match removed. */
  lemma {:induction false} StageAdvances(m: Matcher, text: string, i: nat)
    requires SoundMatcher(m) && ExtractionTrapFree(m, text)
    requires i < |Extract(m, text).functions|
    ensures var stage := Stage(m, text, i);
      m(stage).Some? && RemovalDefined(stage, m(stage).value) &&
      Stage(m, text, i + 1) == RemoveSubstring(stage, m(stage).value)
  {
    ExtractStep(m, text, []);
    var next := RemoveSubstring(text, m(text).value);
    if i == 0 {
      assert Stage(m, text, 1) == Stage(m, next, 0);
    } else {
      StageAdvances(m, next, i - 1);
      assert Stage(m, text, i) == Stage(m, next, i - 1);
      assert Stage(m, text, i + 1) == Stage(m, next, i);
    }
  }

  /** The loop stops exactly at the last stage: after all signatures are taken
      the text is the rest and the matcher finds nothing there. */
  lemma ExtractionEndsAtRest(m: Matcher, text: string)
    requires SoundMatcher(m) && ExtractionTrapFree(m, text)
    ensures Stage(m, text, |Extract(m, text).functions|) == Extract(m, text).rest
    ensures m(Stage(m, text, |Extract(m, text).functions|)).None?
  {
    var stage := Stage(m, text, |Extract(m, text).functions|);
    assert Extract(m, stage).functions == [];
  }

  // ------------------------------------------------------ getClassDeclarationRange

  /** `getClassDeclarationRange(from:)`: the first class-declaration match. */
  function GetClassDeclarationRange(cm: Matcher, text: string): (r: Option<Range>)
    requires SoundMatcher(cm)
    ensures r.Some? ==> 0 <= r.value.lowerBound < r.value.upperBound <= |text|
  {
    cm(text)
  }

  /** The matched declaration text (`text.substring(from: range)`). */
  function ClassText(cm: Matcher, text: string): (classText: string)
    requires SoundMatcher(cm) && cm(text).Some?
    ensures classText == text[cm(text).value.lowerBound..cm(text).value.upperBound]
  {
    Substring(text, cm(text).value)
  }

  // ---------------------------------------------------------------- getProtocolName

  /** Where the class name ends in the declaration text: at the first `:`,
      else at the first `{`, else at the end. */
  function ClassNameEnd(classText: string): (end: nat)
    ensures end <= |classText|
    ensures forall j | 0 <= j < end :: classText[j] != ':'
    ensures end < |classText| ==> classText[end] == ':' || classText[end] == '{'
    ensures ':' in classText ==> end < |classText| && classText[end] == ':'
    ensures ':' !in classText ==> forall j | 0 <= j < end :: classText[j] != '{'
    ensures ':' !in classText && '{' in classText ==> end < |classText| && classText[end] == '{'
  {
    forall j | 0 <= j < |classText|
      ensures OccursAt(classText, ":", j) <==> classText[j] == ':'
      ensures OccursAt(classText, "{", j) <==> classText[j] == '{'
    {
      assert classText[j..j + 1] == [classText[j]];
    }
    match FindFirst(classText, ":")
    case Some(i) => i
    case None =>
      match FindFirst(classText, "{")
      case Some(j) => assert classText[j..j + 1] == "{"; j
      case None => |classText|
  }

  /** `classText[classIndex..<finalIndex]` traps unless the end of `class `
      comes no later than the end of the name. */
  predicate ClassNameSliceOrdered(cm: Matcher, text: string)
    requires SoundMatcher(cm)
  {
    match cm(text)
    case None => true
    case Some(_) =>
      var classText := ClassText(cm, text);
      match FindFirst(classText, "class ")
      case None => true
      case Some(c) => c + 6 <= ClassNameEnd(classText)
  }

  /** `getProtocolName(from:)`: the class name with its spaces removed,
      followed by `Protocol`; "" when there is no declaration or no `class `. */
  function GetProtocolName(cm: Matcher, text: string): (name: string)
    requires SoundMatcher(cm) && ClassNameSliceOrdered(cm, text)
    ensures name == "" <==> cm(text).None? || !Contains(ClassText(cm, text), "class ")
    ensures name != "" ==> |name| >= 8 && name[|name| - 8..] == "Protocol"
    ensures name != "" ==> ' ' !in name[..|name| - 8]
    ensures name != "" ==>
      var classText := ClassText(cm, text);
      var classIndex := FindFirst(classText, "class ").value + 6;
      name[..|name| - 8] == RemoveSpaces(classText[classIndex..ClassNameEnd(classText)])
    ensures ':' !in name
  {
    match GetClassDeclarationRange(cm, text)
    case None => ""
    case Some(range) =>
      var classText := Substring(text, range);
      match FindFirst(classText, "class ")
      case None => ""
      case Some(c) =>
        var classIndex := c + 6;
        var finalIndex := ClassNameEnd(classText);
        var className := RemoveSpaces(classText[classIndex..finalIndex]);
        ProtocolSuffixed(className, classText[classIndex..finalIndex]);
        className + "Protocol"
  }

  /** The facts about `className + "Protocol"` the namer's contract needs. */
  lemma ProtocolSuffixed(className: string, slice: string)
    requires className == RemoveSpaces(slice) && ':' !in slice
    ensures var name := className + "Protocol";
      name != "" && |name| >= 8 && name[|name| - 8..] == "Protocol" &&
      name[..|name| - 8] == className && ':' !in name
  {
    var name := className + "Protocol";
    assert multiset(slice)[':'] == 0;
    assert ':' !in className by {
      assert multiset(className)[':'] == 0;
    }
    assert name[..|name| - 8] == className;
    assert name[|name| - 8..] == "Protocol";
  }

  // -------------------------------------------------- getRefactoredClassDeclaration

  /** `getRefactoredClassDeclaration(text:protocolName:)`: the declaration text
      verbatim, then `, P {` when it already has a conformance list (contains
      `:`), else `: P {`; "" when there is no declaration. */
  function GetRefactoredClassDeclaration(cm: Matcher, text: string, protocolName: string): (decl: string)
    requires SoundMatcher(cm)
    ensures cm(text).None? ==> decl == ""
    ensures cm(text).Some? ==>
      var classText := ClassText(cm, text);
      var n := |classText|;
      |decl| == n + |protocolName| + 4 &&
      decl[..n] == classText &&
      decl[n..n + 2] == (if ':' in classText then ", " else ": ") &&
      decl[n + 2..n + 2 + |protocolName|] == protocolName &&
      decl[|decl| - 2..] == " {"
  {
    match GetClassDeclarationRange(cm, text)
    case None => ""
    case Some(range) =>
      var classText := Substring(text, range);
      var refactoredClassText := Substring(text, range);
      if ':' in classText then refactoredClassText + (", " + protocolName + " {")
      else refactoredClassText + (": " + protocolName + " {")
  }

  /** With the name `getProtocolName` derives, a declaration without a
      conformance list gains exactly one `:`, and one with a list keeps its
      colons and gains none. */
  lemma RefactoredDeclarationColons(cm: Matcher, text: string)
    requires SoundMatcher(cm) && ClassNameSliceOrdered(cm, text) && cm(text).Some?
    ensures var classText := ClassText(cm, text);
      var decl := GetRefactoredClassDeclaration(cm, text, GetProtocolName(cm, text));
      multiset(decl)[':'] == if ':' in classText then multiset(classText)[':'] else 1
  {
    var classText := ClassText(cm, text);
    var name := GetProtocolName(cm, text);
    var separator := if ':' in classText then ", " else ": ";
    assert GetRefactoredClassDeclaration(cm, text, name) == classText + (separator + name + " {");
    AppendedColons(classText, separator, name);
    if ':' !in classText {
      assert multiset(classText)[':'] == 0;
    }
  }

  /** Counts the colons of `classText + separator + name + " {"` when the name
      carries none: only the separator `: ` adds one. */
  lemma AppendedColons(classText: string, separator: string, name: string)
    requires separator == ", " || separator == ": "
    requires ':' !in name
    ensures multiset(classText + (separator + name + " {"))[':']
         == multiset(classText)[':'] + (if separator == ": " then 1 else 0)
  {
    assert multiset(name)[':'] == 0;
    assert multiset(separator + name + " {") == multiset(separator) + multiset(name) + multiset(" {");
  }
}
