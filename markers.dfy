/** commentText and the store-name marker of gen/gen.go. */
module Markers {
  import opened Wrappers
  import opened Strings
  import opened Syntax

  /** The comment group's texts joined with single spaces. */
  function CommentText(g: CommentGroup): string {
    Join(g, " ")
  }

  /** A character of the marker's capture class [0-9A-Za-z_]. */
  predicate IsWordChar(c: char) {
    '0' <= c <= '9' || 'A' <= c <= 'Z' || 'a' <= c <= 'z' || c == '_'
  }

  /** The marker `sky:` followed by at least one word character starts at index i. */
  predicate MarkerAt(s: string, i: nat) {
    i + 5 <= |s| && s[i..i + 4] == "sky:" && IsWordChar(s[i + 4])
  }

  /** The length of the run of word characters starting at j. */
  function WordRun(s: string, j: nat): (k: nat)
    requires j <= |s|
    ensures j + k <= |s|
    ensures forall i :: j <= i < j + k ==> IsWordChar(s[i])
    ensures j + k < |s| ==> !IsWordChar(s[j + k])
    decreases |s| - j
  {
    if j < |s| && IsWordChar(s[j]) then 1 + WordRun(s, j + 1) else 0
  }

  /** The leftmost marker at or after `from`. */
  function FirstMarker(s: string, from: nat): (r: Option<nat>)
    ensures r.Some? ==> from <= r.value && MarkerAt(s, r.value)
    ensures r.Some? ==> forall k :: from <= k < r.value ==> !MarkerAt(s, k)
    ensures r.None? ==> forall k :: from <= k ==> !MarkerAt(s, k)
    decreases |s| - from
  {
    if |s| < from + 5 then None
    else if MarkerAt(s, from) then Some(from)
    else FirstMarker(s, from + 1)
  }

  /**
   * The submatch of `sky:([0-9A-Za-z_]+)` in the text, if the pattern
   * matches: the word run after the leftmost marker, taken whole.
   */
  function FindStoreName(text: string): (r: Option<string>)
    ensures r.None? <==> forall k :: !MarkerAt(text, k)
    ensures r.Some? ==> |r.value| > 0 && forall i :: 0 <= i < |r.value| ==> IsWordChar(r.value[i])
  {
    match FirstMarker(text, 0)
    case None => None
    case Some(i) => Some(text[i + 4 .. i + 4 + WordRun(text, i + 4)])
  }

  /**
   * The leftmost-first, greedy reading of the pattern: whatever marker
   * comes first in the text decides the name, and the name is the whole
   * run of word characters after it.
   */
  lemma StoreNameIsLeftmostLongest(text: string, i: nat)
    requires MarkerAt(text, i)
    requires forall k :: 0 <= k < i ==> !MarkerAt(text, k)
    ensures var w := WordRun(text, i + 4);
      && FindStoreName(text) == Some(text[i + 4 .. i + 4 + w])
      && (i + 4 + w == |text| || !IsWordChar(text[i + 4 + w]))
  {
  }

  /** A marker inside a piece of a text is a marker of the text, at the piece's offset. */
  lemma MarkerInside(before: string, s: string, after: string, i: nat)
    requires MarkerAt(s, i)
    ensures MarkerAt(before + s + after, |before| + i)
  {
    var t := before + s + after;
    var j := |before| + i;
    assert t[|before|..|before| + |s|] == s;
    assert t[j..j + 4] == s[i..i + 4];
    assert t[j + 4] == s[i + 4];
  }

  /** A marker in any one comment of a group is found in the group's joined text. */
  lemma MarkerInOneComment(g: CommentGroup, k: nat)
    requires k < |g|
    requires FindStoreName(g[k]).Some?
    ensures FindStoreName(CommentText(g)).Some?
  {
    var before, after := JoinContains(g, " ", k);
    var i: nat :| MarkerAt(g[k], i);
    MarkerInside(before, g[k], after, i);
  }
}
