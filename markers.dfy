/**
 * The uncertainty marker: the literal token `[UNCLEAR]` that transcription
 * writes where it could not read the page, how the client finds and counts
 * it, and how `String.prototype.replace` substitutes the leftmost one.
 */
module Markers {
  import opened Wrappers
  import opened JsString

  const Marker: string := "[UNCLEAR]"

  /** A text with no marker left in it. */
  predicate Free(s: string) {
    !Contains(s, Marker)
  }

  /** A text shorter than the marker cannot hold one. */
  lemma ShortIsFree(s: string)
    requires |s| < |Marker|
    ensures Free(s)
  {
  }

  /** A text without an opening bracket holds no marker. */
  lemma NoBracketIsFree(s: string)
    requires '[' !in s
    ensures Free(s)
  {
    forall i | 0 <= i <= |s| - |Marker| ensures !OccursAt(s, Marker, i) {
      assert s[i..i + |Marker|][0] == s[i];
    }
  }

  /** The marker's opening bracket appears nowhere but at its start, so two occurrences never overlap. */
  lemma NoOverlap(s: string, i: int, d: int)
    requires OccursAt(s, Marker, i) && 0 < d < |Marker|
    ensures !OccursAt(s, Marker, i + d)
  {
    assert s[i + d] == Marker[d] != '[' by {
      assert s[i..i + |Marker|][d] == s[i + d];
    }
    if i + d + |Marker| <= |s| {
      assert s[i + d..i + d + |Marker|][0] == s[i + d];
    }
  }

  /**
   * The number of matches of the global regular expression /\[UNCLEAR\]/g:
   * each search starts where the previous match ended.
   */
  function CountMarkers(s: string): nat
    decreases |s|
  {
    match IndexOf(s, Marker)
    case None => 0
    case Some(i) => 1 + CountMarkers(s[i + |Marker|..])
  }

  /** The number of positions at which the marker starts, overlapping or not. */
  function Occurrences(s: string): nat
    decreases |s|
  {
    if s == [] then 0 else (if StartsWith(s, Marker) then 1 else 0) + Occurrences(s[1..])
  }

  /** Dropping a prefix in which no marker starts leaves the occurrence count unchanged. */
  lemma {:induction false} SkipNonOccurrences(s: string, k: nat)
    requires k <= |s|
    requires forall j :: 0 <= j < k ==> !OccursAt(s, Marker, j)
    ensures Occurrences(s) == Occurrences(s[k..])
    decreases k
  {
    if k > 0 {
      assert !OccursAt(s, Marker, 0);
      assert !StartsWith(s, Marker);
      ShiftOccurrence(s, Marker);
      SkipNonOccurrences(s[1..], k - 1);
      assert s[1..][k - 1..] == s[k..];
    }
  }

  /**
   * The scan's count, taken match after match, equals the number of places
   * where the marker occurs: no occurrence is skipped or counted twice.
   */
  lemma {:induction false} CountIsOccurrences(s: string)
    ensures CountMarkers(s) == Occurrences(s)
    decreases |s|
  {
    match IndexOf(s, Marker)
    case None =>
      SkipNonOccurrences(s, |s|);
      assert s[|s|..] == [];
    case Some(i) =>
      OccurrencesAtMatch(s, i);
      CountIsOccurrences(s[i + |Marker|..]);
  }

  /** The leftmost match is one occurrence, and no other starts before its end. */
  lemma OccurrencesAtMatch(s: string, i: nat)
    requires IndexOf(s, Marker) == Some(i)
    ensures Occurrences(s) == 1 + Occurrences(s[i + |Marker|..])
  {
    SkipNonOccurrences(s, i);
    var t := s[i..];
    assert t[..|Marker|] == s[i..i + |Marker|];
    assert Occurrences(t) == 1 + Occurrences(t[1..]);
    ShiftOccurrence(t, Marker);
    forall j | 0 <= j < |Marker| - 1 ensures !OccursAt(t[1..], Marker, j) {
      assert t[1..] == s[i + 1..];
      NoOverlap(s, i, j + 1);
      ShiftAll(s, i + 1, j);
    }
    SkipNonOccurrences(t[1..], |Marker| - 1);
    assert t[1..][|Marker| - 1..] == s[i + |Marker|..];
  }

  /** An occurrence in a suffix of `s` is an occurrence in `s`. */
  lemma ShiftAll(s: string, d: nat, j: int)
    requires d <= |s| && 0 <= j
    ensures OccursAt(s[d..], Marker, j) <==> OccursAt(s, Marker, d + j)
  {
    if 0 <= j <= |s| - d - |Marker| {
      assert s[d..][j..j + |Marker|] == s[d + j..d + j + |Marker|];
    }
  }

  /** The text between the markers, as splitting on the scan's matches gives it. */
  function Segments(s: string): (segs: seq<string>)
    ensures |segs| == CountMarkers(s) + 1
    ensures forall k :: 0 <= k < |segs| ==> Free(segs[k])
    decreases |s|
  {
    match IndexOf(s, Marker)
    case None => [s]
    case Some(i) =>
      BeforeFirstIsFree(s, i);
      [s[..i]] + Segments(s[i + |Marker|..])
  }

  /** The text before the leftmost marker holds no marker. */
  lemma BeforeFirstIsFree(s: string, i: nat)
    requires IndexOf(s, Marker) == Some(i)
    ensures Free(s[..i])
  {
    if Contains(s[..i], Marker) {
      var j := IndexOf(s[..i], Marker).value;
      assert s[..i][j..j + |Marker|] == s[j..j + |Marker|];
      assert OccursAt(s, Marker, j);
      assert false;
    }
  }

  /** Segments glued back together with a marker between each two. */
  function Join(segs: seq<string>): string
    requires |segs| >= 1
    decreases |segs|
  {
    if |segs| == 1 then segs[0] else segs[0] + Marker + Join(segs[1..])
  }

  /** Splitting then joining gives back the text. */
  lemma {:induction false} JoinSegments(s: string)
    ensures Join(Segments(s)) == s
    decreases |s|
  {
    match IndexOf(s, Marker)
    case None =>
    case Some(i) =>
      JoinSegments(s[i + |Marker|..]);
      assert s[i..i + |Marker|] == Marker;
      assert s == s[..i] + s[i..i + |Marker|] + s[i + |Marker|..];
  }

  /** After a marker-free prefix, the next marker is the leftmost one. */
  lemma FirstMarkerAfterFree(p: string, rest: string)
    requires Free(p)
    ensures IndexOf(p + Marker + rest, Marker) == Some(|p|)
  {
    var s := p + Marker + rest;
    assert s[|p|..|p| + |Marker|] == Marker;
    assert OccursAt(s, Marker, |p|);
    forall j | 0 <= j < |p| ensures !OccursAt(s, Marker, j) {
      if OccursAt(s, Marker, j) {
        if j + |Marker| <= |p| {
          assert s[j..j + |Marker|] == p[j..j + |Marker|];
          assert OccursAt(p, Marker, j);
          assert false;
        } else {
          NoOverlap(s, j, |p| - j);
          assert false;
        }
      }
    }
  }

  /** Joining marker-free segments then splitting gives back the segments. */
  lemma {:induction false} SegmentsJoin(segs: seq<string>)
    requires |segs| >= 1
    requires forall k :: 0 <= k < |segs| ==> Free(segs[k])
    ensures Segments(Join(segs)) == segs
    ensures CountMarkers(Join(segs)) == |segs| - 1
    decreases |segs|
  {
    if |segs| > 1 {
      var s := Join(segs);
      FirstMarkerAfterFree(segs[0], Join(segs[1..]));
      assert s[..|segs[0]|] == segs[0];
      assert s[|segs[0]| + |Marker|..] == Join(segs[1..]);
      SegmentsJoin(segs[1..]);
    }
  }

  /**
   * The replacement string as ECMAScript's GetSubstitution expands it for a
   * string pattern, which has no capture groups: `$$` is a dollar sign, `$&`
   * the match, `` $` `` the text before it, `$'` the text after it; any
   * other `$` stands for itself.
   */
  function Expand(template: string, matched: string, before: string, after: string): string
    decreases |template|
  {
    if template == [] then []
    else if template[0] == '$' && |template| >= 2 && template[1] in "$&`'" then
      var piece := match template[1]
        case '$' => "$"
        case '&' => matched
        case '`' => before
        case _ => after;
      piece + Expand(template[2..], matched, before, after)
    else [template[0]] + Expand(template[1..], matched, before, after)
  }

  /** A replacement without a dollar sign is inserted as it is. */
  lemma {:induction false} ExpandPlain(template: string, matched: string, before: string, after: string)
    requires '$' !in template
    ensures Expand(template, matched, before, after) == template
    decreases |template|
  {
    if template != [] {
      assert template[0] != '$';
      ExpandPlain(template[1..], matched, before, after);
    }
  }

  /**
   * `replace` with the marker as a string pattern: only the leftmost marker is
   * replaced; a text without one comes back unchanged.
   */
  function ReplaceFirst(s: string, replacement: string): (r: string)
    ensures Free(s) ==> r == s
  {
    match IndexOf(s, Marker)
    case None => s
    case Some(i) =>
      var after := s[i + |Marker|..];
      s[..i] + Expand(replacement, Marker, s[..i], after) + after
  }

  /**
   * With a dollar-free replacement, the leftmost marker is swapped for it and
   * everything before and after is kept: the first segment, the
   * replacement, then the remaining segments joined by their markers.
   */
  lemma ReplaceFirstPlain(s: string, replacement: string)
    requires '$' !in replacement
    ensures Free(s) ==> ReplaceFirst(s, replacement) == s
    ensures !Free(s) ==>
      var segs := Segments(s);
      |segs| >= 2 && ReplaceFirst(s, replacement) == segs[0] + replacement + Join(segs[1..])
  {
    match IndexOf(s, Marker)
    case None =>
    case Some(i) =>
      var after := s[i + |Marker|..];
      ExpandPlain(replacement, Marker, s[..i], after);
      JoinSegments(after);
  }

  /** One entry of the clarification dialog; there is never a picture of the unclear region. */
  datatype Segment = Segment(image: Option<string>)

  /**
   * The segment list built from the global matches of the marker: one
   * segment per match, none carrying an image.
   */
  function Scan(text: string): (segs: seq<Segment>)
    ensures |segs| == Occurrences(text)
    ensures forall k :: 0 <= k < |segs| ==> segs[k].image.None?
  {
    CountIsOccurrences(text);
    seq(CountMarkers(text), _ => Segment(None))
  }

  /** The scan finds a segment exactly when `includes` finds the marker. */
  lemma ScanFindsIffContains(text: string)
    ensures |Scan(text)| > 0 <==> Contains(text, Marker)
  {
    CountIsOccurrences(text);
  }
}
