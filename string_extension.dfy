/** The `String` helpers of the refactoring command: the two methods of its
    `extension String` (`substring(from:)` and `removeSubstring(with:)`) and the
    literal searches it borrows from the platform (`range(of:)`, `contains`,
    `replacingOccurrences(of: " ", with: "")`).
    A Swift `String` is a `seq<char>`, a `String.Index` an integer offset from
    `startIndex`, and a `Range<String.Index>` a pair of such offsets. */
module StringExtension {
  import opened Wrappers

  /** A pair of character offsets, `lowerBound ..< upperBound`. */
  datatype Bounds = Bounds(lowerBound: int, upperBound: int)

  /** Swift's `Range` always has `lowerBound <= upperBound`. */
  type Range = b: Bounds | b.lowerBound <= b.upperBound witness Bounds(0, 0)

  /** The guard both helpers start with: `startIndex <= lowerBound && endIndex >= upperBound`. */
  predicate InBounds(s: string, r: Range) {
    0 <= r.lowerBound && r.upperBound <= |s|
  }

  /** `substring(from:)` builds the closed range `lowerBound ... max(upperBound - 1, 0)`;
      it traps when that range is reversed (an empty range away from offset 0)
      or when it names the end of an empty string. */
  predicate SubstringDefined(s: string, r: Range) {
    !InBounds(s, r) || r.lowerBound < r.upperBound || (r.upperBound == 0 && |s| > 0)
  }

  /** `substring(from:)`: the characters the range covers, or "" for a range
      outside the string. An empty range at offset 0 yields the first character,
      because the end distance is clamped to 0 and the range is closed. */
  function Substring(s: string, r: Range): (sub: string)
    requires SubstringDefined(s, r)
    ensures !InBounds(s, r) ==> sub == ""
    ensures InBounds(s, r) && r.lowerBound < r.upperBound ==>
      |sub| == r.upperBound - r.lowerBound &&
      forall i | 0 <= i < |sub| :: sub[i] == s[r.lowerBound + i]
    ensures InBounds(s, r) && r.lowerBound == r.upperBound ==> sub == [s[0]]
  {
    if !InBounds(s, r) then ""
    else
      var rangeStart := r.lowerBound;
      var distance := r.upperBound - 1;
      var rangeEnd := if distance < 0 then 0 else distance;
      s[rangeStart..rangeEnd + 1]
  }

  /** `removeSubstring(with:)` steps one character back from `lowerBound`
      (`offsetBy: distance - 1`), which traps at offset 0. */
  predicate RemovalDefined(s: string, r: Range) {
    !InBounds(s, r) || r.lowerBound >= 1
  }

  /** `removeSubstring(with:)`, a `mutating` method of a value type: the new value
      of the string. It keeps everything before `lowerBound - 1` and everything
      from `upperBound` on, so the character just before the range goes too. */
  function RemoveSubstring(s: string, r: Range): (t: string)
    requires RemovalDefined(s, r)
    ensures !InBounds(s, r) ==> t == s
    ensures InBounds(s, r) ==> |t| == |s| - (r.upperBound - r.lowerBound + 1)
    ensures InBounds(s, r) ==> forall i | 0 <= i < r.lowerBound - 1 :: t[i] == s[i]
    ensures InBounds(s, r) ==>
      forall i | r.lowerBound - 1 <= i < |t| :: t[i] == s[i + (r.upperBound - r.lowerBound + 1)]
  {
    if !InBounds(s, r) then s
    else
      var leftSide := s[..r.lowerBound - 1];
      var rightSide := s[r.upperBound..];
      leftSide + rightSide
  }

  /** What removal takes away, put back: the kept left side, the one extra
      character before the range, the range's own text, the kept right side. */
  lemma {:induction false} RemovedTextReassembles(s: string, r: Range)
    requires InBounds(s, r) && r.lowerBound >= 1 && r.lowerBound < r.upperBound
    ensures var t := RemoveSubstring(s, r);
      s == t[..r.lowerBound - 1] + [s[r.lowerBound - 1]] + Substring(s, r) + t[r.lowerBound - 1..]
  {
    var t := RemoveSubstring(s, r);
    var lo, hi := r.lowerBound, r.upperBound;
    assert t[..lo - 1] == s[..lo - 1];
    assert t[lo - 1..] == s[hi..];
    assert Substring(s, r) == s[lo..hi];
    assert s == s[..lo - 1] + [s[lo - 1]] + s[lo..hi] + s[hi..];
  }

  /** `pat` occurs in `s` starting at offset `i`. */
  predicate OccursAt(s: string, pat: string, i: int) {
    0 <= i && i + |pat| <= |s| && s[i..i + |pat|] == pat
  }

  /** Literal search from offset `from` on: the leftmost occurrence at or after it. */
  function FindFrom(s: string, pat: string, from: nat): (r: Option<nat>)
    ensures r.Some? ==> from <= r.value && OccursAt(s, pat, r.value)
    ensures r.Some? ==> forall j | from <= j < r.value :: !OccursAt(s, pat, j)
    ensures r.None? ==> forall j | from <= j :: !OccursAt(s, pat, j)
    decreases |s| - from
  {
    if from + |pat| > |s| then None
    else if s[from..from + |pat|] == pat then Some(from)
    else FindFrom(s, pat, from + 1)
  }

  /** `range(of:)` with a literal pattern, reduced to the offset where the match
      starts. Foundation finds nothing for an empty pattern. */
  function FindFirst(s: string, pat: string): (r: Option<nat>)
    ensures r.Some? ==> pat != [] && OccursAt(s, pat, r.value)
    ensures r.Some? ==> forall j | 0 <= j < r.value :: !OccursAt(s, pat, j)
    ensures r.None? && pat != [] ==> forall j :: !OccursAt(s, pat, j)
  {
    if pat == [] then None else FindFrom(s, pat, 0)
  }

  /** `contains` with a string argument. */
  predicate Contains(s: string, pat: string) {
    FindFirst(s, pat).Some?
  }

  /** `replacingOccurrences(of: " ", with: "")`. */
  function RemoveSpaces(s: string): (r: string)
    ensures ' ' !in r
    ensures forall c | c != ' ' :: multiset(r)[c] == multiset(s)[c]
  {
    if s == [] then []
    else
      assert s == [s[0]] + s[1..];
      (if s[0] == ' ' then [] else [s[0]]) + RemoveSpaces(s[1..])
  }

  /** Removing spaces works piecewise ... */
  lemma {:induction false} RemoveSpacesAppend(a: string, b: string)
    ensures RemoveSpaces(a + b) == RemoveSpaces(a) + RemoveSpaces(b)
  {
    if a == [] {
      assert a + b == b;
    } else {
      assert (a + b)[0] == a[0] && (a + b)[1..] == a[1..] + b;
      RemoveSpacesAppend(a[1..], b);
    }
  }

  /** ... and leaves a string without spaces as it is; together with
      RemoveSpacesAppend this fixes the result on every input. */
  lemma {:induction false} RemoveSpacesKeepsSpaceless(s: string)
    requires ' ' !in s
    ensures RemoveSpaces(s) == s
  {
    if s != [] {
      RemoveSpacesKeepsSpaceless(s[1..]);
    }
  }
}
