/** A worked input for the derivations. The text is the bare declaration
    `class Bar: Baz`; on it the class pattern of `getClassDeclarationRange`
    matches the whole text, offsets 0 to 14. The declaration matcher is
    replaced by one that always reports that range. */
module Scenarios {
  import opened Wrappers
  import opened StringExtension
  import opened SourceEditorCommand

  /** A matcher that reports `lo ..< hi` on every text long enough to hold it. */
  function FixedMatch(lo: nat, hi: nat): (m: Matcher)
    requires lo < hi
    ensures SoundMatcher(m)
  {
    (s: string) => if hi <= |s| then Some(Bounds(lo, hi)) else None
  }

  /** `class Bar: Baz` already has a conformance list: the protocol is named
      after `Bar`, and the declaration `perform` inserts carries that derived
      name after a comma. */
  lemma SubclassScenario()
    ensures ClassNameSliceOrdered(FixedMatch(0, 14), "class Bar: Baz")
    ensures GetProtocolName(FixedMatch(0, 14), "class Bar: Baz") == "Bar" + "Protocol"
    ensures GetRefactoredClassDeclaration(FixedMatch(0, 14), "class Bar: Baz",
              GetProtocolName(FixedMatch(0, 14), "class Bar: Baz"))
         == "class Bar: Baz" + ", " + ("Bar" + "Protocol") + " {"
  {
    SubclassSliceOrdered();
    SubclassProtocolName();
    SubclassDeclaration("Bar" + "Protocol");
  }

  lemma SubclassSliceOrdered()
    ensures ClassNameSliceOrdered(FixedMatch(0, 14), "class Bar: Baz")
  {
    SubclassDeclarationText();
    SubclassNameBounds("class Bar: Baz");
  }

  lemma SubclassProtocolName()
    requires ClassNameSliceOrdered(FixedMatch(0, 14), "class Bar: Baz")
    ensures GetProtocolName(FixedMatch(0, 14), "class Bar: Baz") == "Bar" + "Protocol"
  {
    SubclassDeclarationText();
    SubclassNameBounds("class Bar: Baz");
    SubclassNameSqueezed("class Bar: Baz");
    ProtocolNameFromParts(FixedMatch(0, 14), "class Bar: Baz", "class Bar: Baz", 0, 9, "Bar");
  }

  /** The scenario's name slice has no spaces to remove. */
  lemma SubclassNameSqueezed(classText: string)
    requires classText == "class Bar: Baz"
    ensures RemoveSpaces(classText[6..9]) == "Bar"
  {
    assert classText[6..9] == "Bar";
    RemoveSpacesKeepsSpaceless("Bar");
  }

  /** ProtocolNameFromSlice with its parts named. */
  lemma ProtocolNameFromParts(cm: Matcher, text: string, classText: string, c: nat, end: nat, squeezed: string)
    requires SoundMatcher(cm) && ClassNameSliceOrdered(cm, text) && cm(text).Some?
    requires ClassText(cm, text) == classText && FindFirst(classText, "class ") == Some(c)
    requires ClassNameEnd(classText) == end && c + 6 <= end
    requires RemoveSpaces(classText[c + 6..end]) == squeezed
    ensures GetProtocolName(cm, text) == squeezed + "Protocol"
  {
    ProtocolNameFromSlice(cm, text);
  }

  /** Whenever `class ` occurs in the matched text, the name is the squeezed
      slice with `Protocol` appended. */
  lemma ProtocolNameFromSlice(cm: Matcher, text: string)
    requires SoundMatcher(cm) && ClassNameSliceOrdered(cm, text)
    requires cm(text).Some? && Contains(ClassText(cm, text), "class ")
    ensures var classText := ClassText(cm, text);
      var classIndex := FindFirst(classText, "class ").value + 6;
      GetProtocolName(cm, text)
        == RemoveSpaces(classText[classIndex..ClassNameEnd(classText)]) + "Protocol"
  {
    var name := GetProtocolName(cm, text);
    assert name == name[..|name| - 8] + name[|name| - 8..];
  }

  /** The declaration has a `:`, so any protocol name goes after a comma. */
  lemma SubclassDeclaration(protocolName: string)
    ensures GetRefactoredClassDeclaration(FixedMatch(0, 14), "class Bar: Baz", protocolName)
         == "class Bar: Baz" + ", " + protocolName + " {"
  {
    var classText := "class Bar: Baz";
    SubclassDeclarationText();
    assert classText[9] == ':';
  }

  /** The matched declaration text of the scenario is the whole text. */
  lemma SubclassDeclarationText()
    ensures FixedMatch(0, 14)("class Bar: Baz") == Some(Bounds(0, 14))
    ensures ClassText(FixedMatch(0, 14), "class Bar: Baz") == "class Bar: Baz"
  {
    var text := "class Bar: Baz";
    assert Substring(text, Bounds(0, 14)) == text[0..14] == text;
  }

  /** In the scenario's declaration the name runs from offset 6 to the colon at 9. */
  lemma SubclassNameBounds(classText: string)
    requires classText == "class Bar: Baz"
    ensures FindFirst(classText, "class ") == Some(0)
    ensures FindFirst(classText, ":") == Some(9) && ClassNameEnd(classText) == 9
    ensures ':' in classText
  {
    assert classText[0..6] == "class ";
    assert classText[9] == ':' && classText[9..10] == [classText[9]];
    forall i | 0 <= i < 9 ensures !OccursAt(classText, ":", i) {
      assert classText[i..i + 1] == [classText[i]];
    }
    ColonSearch(classText, 9, 0);
  }

  /** A search for `:` started at or before the first colon finds that colon. */
  lemma {:induction false} ColonSearch(s: string, k: nat, from: nat)
    requires OccursAt(s, ":", k)
    requires forall i | 0 <= i < k :: !OccursAt(s, ":", i)
    requires from <= k
    ensures FindFrom(s, ":", from) == Some(k)
    decreases k - from
  {
    if from < k {
      ColonSearch(s, k, from + 1);
    }
  }
}
