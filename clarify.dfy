/**
 * The clarification merge (`applyClarifications`): the answers are taken in
 * ascending numeric key order and each non-blank one, trimmed, replaces the
 * leftmost marker still in the text. The key only fixes the order; it does
 * not choose which marker is replaced.
 */
module Clarify {
  import opened JsString
  import opened Markers

  /** `m` is in `keys` and no key is smaller. */
  predicate IsLeast(m: nat, keys: set<nat>) {
    m in keys && forall k :: k in keys ==> m <= k
  }

  /** A non-empty set of keys has a least element. */
  lemma {:induction false} MinExists(keys: set<nat>)
    requires keys != {}
    ensures exists m :: IsLeast(m, keys)
    decreases keys
  {
    var x :| x in keys;
    var others := keys - {x};
    if others == {} {
      LeastOfSingleton(keys, x);
    } else {
      MinExists(others);
      var m :| IsLeast(m, others);
      LeastOfAdded(keys, x, m);
    }
  }

  lemma LeastOfSingleton(keys: set<nat>, x: nat)
    requires x in keys && keys - {x} == {}
    ensures IsLeast(x, keys)
  {
    forall k | k in keys ensures x <= k {
      assert k == x || k in keys - {x};
    }
  }

  lemma LeastOfAdded(keys: set<nat>, x: nat, m: nat)
    requires x in keys && IsLeast(m, keys - {x})
    ensures IsLeast(if x < m then x else m, keys)
  {
    forall k | k in keys ensures (if x < m then x else m) <= k {
      assert k == x || k in keys - {x};
    }
  }

  function MinKey(keys: set<nat>): (m: nat)
    requires keys != {}
    ensures IsLeast(m, keys)
  {
    MinExists(keys);
    var m :| IsLeast(m, keys);
    m
  }

  /**
   * The keys of the answer map sorted by their numeric value: every key
   * exactly once, in strictly ascending numeric order, whatever order the
   * keys were entered in.
   */
  function AscendingKeys(keys: set<nat>): (r: seq<nat>)
    ensures |r| == |keys|
    ensures forall k :: k in keys <==> k in r
    ensures forall i, j :: 0 <= i < j < |r| ==> r[i] < r[j]
    decreases |keys|
  {
    if keys == {} then []
    else
      var m := MinKey(keys);
      assert |keys - {m}| == |keys| - 1;
      var rest := AscendingKeys(keys - {m});
      LeastFirst(keys, m, rest);
      [m] + rest
  }

  /** The least key put before the others, in ascending order, gives all of them in ascending order. */
  lemma LeastFirst(keys: set<nat>, m: nat, rest: seq<nat>)
    requires IsLeast(m, keys)
    requires forall k :: k in keys - {m} <==> k in rest
    requires forall i, j :: 0 <= i < j < |rest| ==> rest[i] < rest[j]
    ensures forall k :: k in keys <==> k in [m] + rest
    ensures forall i, j :: 0 <= i < j < |[m] + rest| ==> ([m] + rest)[i] < ([m] + rest)[j]
  {
    var r := [m] + rest;
    forall i, j | 0 <= i < j < |r| ensures r[i] < r[j] {
      if i == 0 {
        assert r[j] == rest[j - 1] && rest[j - 1] in keys - {m};
      } else {
        assert r[i] == rest[i - 1] && r[j] == rest[j - 1];
      }
    }
  }

  /** The answers of `responses`, listed in ascending key order. */
  function InKeyOrder(responses: map<nat, string>): seq<string> {
    var keys := AscendingKeys(responses.Keys);
    seq(|keys|, i requires 0 <= i < |keys| => responses[keys[i]])
  }

  /** The `i`-th answer in key order is the one under the `i`-th smallest key. */
  lemma InKeyOrderAt(responses: map<nat, string>, i: nat)
    requires i < |AscendingKeys(responses.Keys)|
    ensures |InKeyOrder(responses)| == |AscendingKeys(responses.Keys)|
    ensures InKeyOrder(responses)[i] == responses[AscendingKeys(responses.Keys)[i]]
  {
  }

  /** Turn `i` of the loop over the sorted keys applies the answer under the `i`-th smallest key. */
  lemma MergeStepAt(text: string, responses: map<nat, string>, i: nat)
    requires i < |AscendingKeys(responses.Keys)|
    ensures var answers := InKeyOrder(responses);
      && |answers| == |AscendingKeys(responses.Keys)|
      && Merge(text, answers[..i + 1]) == Step(Merge(text, answers[..i]), responses[AscendingKeys(responses.Keys)[i]])
  {
    InKeyOrderAt(responses, i);
    MergeSnoc(text, InKeyOrder(responses), i);
  }

  /**
   * One turn of the `forEach`: an answer that trims to the empty string is
   * skipped; any other replaces the leftmost remaining marker by its trimmed
   * text.
   */
  function Step(text: string, answer: string): string {
    var t := Trim(answer);
    if t == [] then text else ReplaceFirst(text, t)
  }

  /** The answers applied one after another, in the order given. */
  function Merge(text: string, answers: seq<string>): string
    decreases |answers|
  {
    if answers == [] then text
    else Step(Merge(text, answers[..|answers| - 1]), answers[|answers| - 1])
  }

  /** Applying one more answer is one more step. */
  lemma MergeSnoc(text: string, answers: seq<string>, i: nat)
    requires i < |answers|
    ensures Merge(text, answers[..i + 1]) == Step(Merge(text, answers[..i]), answers[i])
  {
    assert answers[..i + 1][..i] == answers[..i];
  }

  /** The text `applyClarifications(responses)` leaves in the preview. */
  function Clarified(text: string, responses: map<nat, string>): string {
    Merge(text, InKeyOrder(responses))
  }

  /**
   * The loop of `applyClarifications` over the sorted keys, on a local copy
   * of the transcript: it computes the merge of the answers in key order.
   */
  method MergeResponses(text: string, responses: map<nat, string>) returns (updated: string)
    ensures updated == Clarified(text, responses)
  {
    var keys := AscendingKeys(responses.Keys);
    ghost var answers := InKeyOrder(responses);
    updated := text;
    var i := 0;
    assert answers[..0] == [];
    while i < |keys|
      invariant 0 <= i <= |keys| == |answers|
      invariant updated == Merge(text, answers[..i])
    {
      var answer := Trim(responses[keys[i]]);
      if answer != [] {
        updated := ReplaceFirst(updated, answer);
      }
      MergeStepAt(text, responses, i);
      i := i + 1;
    }
    assert answers[..i] == answers;
  }

  /** The trimmed answers that are not blank, in order: the ones that replace a marker. */
  function Applied(answers: seq<string>): (xs: seq<string>)
    ensures |xs| <= |answers|
    ensures forall k :: 0 <= k < |xs| ==> xs[k] != []
    decreases |answers|
  {
    if answers == [] then []
    else
      var last := answers[|answers| - 1];
      var t := Trim(last);
      Applied(answers[..|answers| - 1]) + (if t == [] then [] else [t])
  }

  /** Trimming keeps only characters of the answer, so no `$` appears that was not typed. */
  lemma {:induction false} AppliedDollarFree(answers: seq<string>)
    requires forall k :: 0 <= k < |answers| ==> '$' !in answers[k]
    ensures forall k :: 0 <= k < |Applied(answers)| ==> '$' !in Applied(answers)[k]
    decreases |answers|
  {
    if answers != [] {
      var last := answers[|answers| - 1];
      AppliedDollarFree(answers[..|answers| - 1]);
      TrimIsSlice(last);
      var t := Trim(last);
      var i := |last| - |TrimStart(last)|;
      assert forall c :: c in t ==> c in last by {
        forall c | c in t ensures c in last {
          var k :| 0 <= k < |t| && t[k] == c;
          assert t[k] == last[i + k];
        }
      }
    }
  }

  /** Replacing the leftmost marker once for each of `xs`, in order. */
  function ReplaceEach(text: string, xs: seq<string>): string
    decreases |xs|
  {
    if xs == [] then text else ReplaceFirst(ReplaceEach(text, xs[..|xs| - 1]), xs[|xs| - 1])
  }

  /** Skipping blank answers and trimming the others is all the merge does besides replacing. */
  lemma {:induction false} MergeIsReplaceEach(text: string, answers: seq<string>)
    ensures Merge(text, answers) == ReplaceEach(text, Applied(answers))
    decreases |answers|
  {
    if answers != [] {
      var pre := answers[..|answers| - 1];
      var last := answers[|answers| - 1];
      MergeIsReplaceEach(text, pre);
      var t := Trim(last);
      assert Merge(text, answers) == Step(Merge(text, pre), last);
      if t != [] {
        var xs := Applied(answers);
        assert xs == Applied(pre) + [t];
        assert xs[..|xs| - 1] == Applied(pre);
      } else {
        assert Applied(answers) == Applied(pre) + [];
        assert Applied(pre) + [] == Applied(pre);
      }
    }
  }

  /**
   * Answers that are all blank (or none at all, as with an empty
   * `responses` map) leave the text exactly as it was.
   */
  lemma {:induction false} BlankAnswersChangeNothing(text: string, answers: seq<string>)
    requires forall k :: 0 <= k < |answers| ==> IsBlank(answers[k])
    ensures Merge(text, answers) == text
    decreases |answers|
  {
    if answers != [] {
      BlankAnswersChangeNothing(text, answers[..|answers| - 1]);
    }
  }

  /** `t0 x1 t1 ... xj tj`: the first `j + 1` segments with the first `j` answers in place of the markers between them. */
  function Filled(segs: seq<string>, xs: seq<string>, j: nat): string
    requires j < |segs| && j <= |xs|
  {
    if j == 0 then segs[0] else Filled(segs, xs, j - 1) + xs[j - 1] + segs[j]
  }

  /** No step of the merge makes a new marker out of an answer and the text around it. */
  predicate NoMarkerFormed(segs: seq<string>, xs: seq<string>) {
    forall j :: 0 <= j < |segs| && j <= |xs| ==> FilledFree(segs, xs, j)
  }

  /** After `j` steps, the text up to the first marker left holds no marker. */
  predicate FilledFree(segs: seq<string>, xs: seq<string>, j: nat)
    requires j < |segs| && j <= |xs|
  {
    Free(Filled(segs, xs, j))
  }

  function Min(a: nat, b: nat): nat {
    if a <= b then a else b
  }

  lemma {:induction false} FilledPrefix(segs: seq<string>, xs: seq<string>, n: nat, j: nat)
    requires n <= |xs| && j < |segs| && j <= n
    ensures Filled(segs, xs[..n], j) == Filled(segs, xs, j)
  {
    if j > 0 {
      FilledPrefix(segs, xs, n, j - 1);
    }
  }

  /**
   * As long as no marker is formed, replacing leftmost markers one answer at
   * a time fills the markers in order: the first `m` markers hold the
   * answers, the text around them is kept, and the later markers stay.
   */
  lemma {:induction false} ReplaceEachShape(segs: seq<string>, xs: seq<string>)
    requires |segs| >= 1
    requires forall k :: 0 <= k < |xs| ==> '$' !in xs[k]
    requires NoMarkerFormed(segs, xs)
    ensures var m := Min(|xs|, |segs| - 1);
      ReplaceEach(Join(segs), xs) == Join([Filled(segs, xs, m)] + segs[m + 1..])
    decreases |xs|
  {
    if xs == [] {
      assert [segs[0]] + segs[1..] == segs;
    } else {
      var n := |xs| - 1;
      var pre := xs[..n];
      var x := xs[n];
      forall j | 0 <= j < |segs| && j <= |pre| ensures FilledFree(segs, pre, j) {
        FilledPrefix(segs, xs, n, j);
        assert FilledFree(segs, xs, j);
      }
      ReplaceEachShape(segs, pre);
      var m := Min(|pre|, |segs| - 1);
      FilledPrefix(segs, xs, n, m);
      var p := Filled(segs, pre, m);
      assert FilledFree(segs, xs, m);
      var rest := segs[m + 1..];
      assert ReplaceEach(Join(segs), xs) == ReplaceFirst(Join([p] + rest), x);
      if m == |segs| - 1 {
        assert [p] + rest == [p];
      } else {
        JoinCons(p, rest);
        ReplaceAfterFree(p, Join(rest), x);
        JoinPrepend(p + x, rest);
        assert Filled(segs, xs, m + 1) == p + x + rest[0];
        assert segs[m + 2..] == rest[1..];
      }
    }
  }

  lemma JoinCons(a: string, rest: seq<string>)
    requires |rest| >= 1
    ensures Join([a] + rest) == a + Marker + Join(rest)
  {
    assert ([a] + rest)[1..] == rest;
  }

  lemma JoinPrepend(a: string, tail: seq<string>)
    requires |tail| >= 1
    ensures Join([a + tail[0]] + tail[1..]) == a + Join(tail)
  {
    if |tail| > 1 {
      var j := Join(tail[1..]);
      JoinCons(a + tail[0], tail[1..]);
      assert Join(tail) == tail[0] + Marker + j;
      Regroup(a, tail[0], j);
    } else {
      assert [a + tail[0]] + tail[1..] == [a + tail[0]];
    }
  }

  /** Past a marker-free prefix, the marker that follows is the one replaced. */
  lemma ReplaceAfterFree(p: string, rest: string, x: string)
    requires Free(p) && '$' !in x
    ensures ReplaceFirst(p + Marker + rest, x) == p + x + rest
  {
    var s := p + Marker + rest;
    FirstMarkerAfterFree(p, rest);
    assert s[..|p|] == p;
    assert s[|p| + |Marker|..] == rest;
    ExpandPlain(x, Marker, p, rest);
  }

  /**
   * The merge as a whole. Provided the answers use no `$` replacement
   * pattern and no marker is formed along the way, the result keeps every
   * piece of text between markers, in order; the first `m` markers hold the
   * trimmed non-blank answers in key order, where `m` is the smaller of the
   * number of such answers and the number of markers; the remaining markers
   * are untouched, so `max(0, before - answers)` of them are left.
   */
  lemma {:induction false} MergeShape(text: string, answers: seq<string>)
    requires forall k :: 0 <= k < |answers| ==> '$' !in answers[k]
    requires NoMarkerFormed(Segments(text), Applied(answers))
    ensures Merge(text, answers) == FilledText(Segments(text), Applied(answers))
    ensures CountMarkers(Merge(text, answers)) == CountMarkers(text) - FilledCount(Segments(text), Applied(answers))
  {
    var segs := Segments(text);
    var xs := Applied(answers);
    MergeIsReplaceEach(text, answers);
    AppliedDollarFree(answers);
    JoinSegments(text);
    ReplaceEachOnSegments(text, segs, xs);
  }

  /** How many markers `xs` fill: one per answer, as long as markers remain. */
  function FilledCount(segs: seq<string>, xs: seq<string>): (m: nat)
    requires |segs| >= 1
    ensures m <= |xs| && m < |segs|
    ensures m == |xs| || m == |segs| - 1
  {
    Min(|xs|, |segs| - 1)
  }

  /** The pieces with the first `FilledCount` markers filled by `xs` in order, and the other markers kept. */
  function FilledText(segs: seq<string>, xs: seq<string>): string
    requires |segs| >= 1
  {
    var m := FilledCount(segs, xs);
    Join([Filled(segs, xs, m)] + segs[m + 1..])
  }

  lemma ReplaceEachOnSegments(text: string, segs: seq<string>, xs: seq<string>)
    requires |segs| >= 1 && Join(segs) == text
    requires forall k :: 0 <= k < |segs| ==> Free(segs[k])
    requires forall k :: 0 <= k < |xs| ==> '$' !in xs[k]
    requires NoMarkerFormed(segs, xs)
    ensures ReplaceEach(text, xs) == FilledText(segs, xs)
    ensures CountMarkers(ReplaceEach(text, xs)) == CountMarkers(text) - FilledCount(segs, xs)
  {
    SegmentsJoin(segs);
    var m := Min(|xs|, |segs| - 1);
    ReplaceEachShape(segs, xs);
    AllFree(segs, xs, m);
    SegmentsJoin([Filled(segs, xs, m)] + segs[m + 1..]);
  }

  /** The pieces left after `m` steps are all marker-free. */
  lemma AllFree(segs: seq<string>, xs: seq<string>, m: nat)
    requires m < |segs| && m <= |xs|
    requires forall k :: 0 <= k < |segs| ==> Free(segs[k])
    requires NoMarkerFormed(segs, xs)
    ensures var out := [Filled(segs, xs, m)] + segs[m + 1..];
      forall k :: 0 <= k < |out| ==> Free(out[k])
  {
    var out := [Filled(segs, xs, m)] + segs[m + 1..];
    forall k | 0 <= k < |out| ensures Free(out[k]) {
      if k > 0 {
        assert out[k] == segs[m + k];
      } else {
        assert FilledFree(segs, xs, m);
      }
    }
  }

  /** Two answers: the first is applied, then the second. */
  lemma MergeTwo(text: string, a: string, b: string)
    ensures Merge(text, [a, b]) == Step(Step(text, a), b)
  {
    assert [a, b][..1] == [a];
    assert [a][..0] == [];
    assert Merge(text, [a]) == Step(Merge(text, []), a);
    assert Merge(text, [a, b]) == Step(Merge(text, [a]), b);
  }

  /**
   * An answer whose ends are visible ASCII and which holds no `$` fills the
   * marker that follows a prefix too short to hold a marker.
   */
  lemma StepFills(p: string, rest: string, x: string)
    requires |p| < |Marker| && '$' !in x
    requires x != [] && '!' <= x[0] <= '~' && '!' <= x[|x| - 1] <= '~'
    ensures Step(p + Marker + rest, x) == p + x + rest
  {
    AsciiWhitespace(x[0]);
    AsciiWhitespace(x[|x| - 1]);
    TrimKeeps(x);
    ShortIsFree(p);
    ReplaceAfterFree(p, rest, x);
  }

  /** Two plain answers on two markers, each after a short piece of text, fill them in order. */
  lemma TwoFill(p: string, q: string, rest: string, a: string, b: string)
    requires |p| < |Marker| && |p + a + q| < |Marker|
    requires '$' !in a && '$' !in b
    requires a != [] && '!' <= a[0] <= '~' && '!' <= a[|a| - 1] <= '~'
    requires b != [] && '!' <= b[0] <= '~' && '!' <= b[|b| - 1] <= '~'
    ensures Merge(p + Marker + (q + Marker + rest), [a, b]) == p + a + q + b + rest
  {
    var text := p + Marker + (q + Marker + rest);
    MergeTwo(text, a, b);
    StepFills(p, q + Marker + rest, a);
    Regroup(p + a, q, rest);
    StepFills(p + a + q, rest, b);
  }

  lemma Regroup(x: string, y: string, z: string)
    ensures x + (y + Marker + z) == (x + y) + Marker + z
  {
  }

  /** An answer made of spaces is skipped. */
  lemma StepSkipsSpaces(text: string, x: string)
    requires forall k :: 0 <= k < |x| ==> x[k] == ' '
    ensures Step(text, x) == text
  {
    AsciiWhitespace(' ');
    assert IsBlank(x);
  }

  /** Short pieces joined by markers: as many markers as joins. */
  lemma CountShortSegments(segs: seq<string>)
    requires |segs| >= 1
    requires forall k :: 0 <= k < |segs| ==> |segs[k]| < |Marker|
    ensures CountMarkers(Join(segs)) == |segs| - 1
  {
    forall k | 0 <= k < |segs| ensures Free(segs[k]) {
      ShortIsFree(segs[k]);
    }
    SegmentsJoin(segs);
  }

  /**
   * A single answer under any key, even one beyond the number of markers,
   * goes to the leftmost marker: the key's value does not choose the marker.
   */
  lemma {:induction false} KeyDoesNotChooseMarker(text: string, key: nat, answer: string)
    ensures Clarified(text, map[key := answer]) == Step(text, answer)
  {
    var responses := map[key := answer];
    assert responses.Keys == {key};
    var keys := AscendingKeys(responses.Keys);
    assert |keys| == 1 && key in keys;
    assert keys == [key];
    var answers := InKeyOrder(responses);
    assert answers == [answer];
    assert answers[..0] == [];
    assert Merge(text, answers) == Step(Merge(text, []), answer);
  }

  /**
   * Answers `{2: "C", 0: "A"}` on three markers: "A" fills the first, "C" the
   * second (the first one left), and the third marker stays.
   */
  lemma OrdinalMergeExample()
    ensures Clarified("[UNCLEAR] x [UNCLEAR] y [UNCLEAR]", map[2 := "C", 0 := "A"])
      == "A x C y [UNCLEAR]"
  {
    assert map[2 := "C", 0 := "A"] == map[0 := "A", 2 := "C"];
    TwoKeys(0, 2, "A", "C");
    OrdinalTexts();
    TwoFill("", " x ", " y [UNCLEAR]", "A", "C");
  }

  lemma OrdinalTexts()
    ensures "[UNCLEAR] x [UNCLEAR] y [UNCLEAR]" == "" + Marker + (" x " + Marker + " y [UNCLEAR]")
    ensures "A x C y [UNCLEAR]" == "" + "A" + " x " + "C" + " y [UNCLEAR]"
  {
    OrdinalInput();
    OrdinalOutput();
  }

  lemma OrdinalInput()
    ensures "[UNCLEAR] x [UNCLEAR] y [UNCLEAR]" == "" + Marker + (" x " + Marker + " y [UNCLEAR]")
  {
  }

  lemma OrdinalOutput()
    ensures "A x C y [UNCLEAR]" == "" + "A" + " x " + "C" + " y [UNCLEAR]"
  {
  }

  /**
   * The answer to segment 2 lands in the first marker when segment 1 is left
   * blank: blank answers are skipped and consume no marker.
   */
  lemma BlankAnswerShiftsLaterOnes()
    ensures Clarified("[UNCLEAR] x [UNCLEAR]", map[0 := "  ", 1 := "B"]) == "B x [UNCLEAR]"
  {
    TwoKeys(0, 1, "  ", "B");
    BlankTexts();
    BlankThenFill(" x [UNCLEAR]", "  ", "B");
  }

  /** With two keys, the answer under the smaller one comes first. */
  lemma TwoKeys(a: nat, b: nat, x: string, y: string)
    requires a < b
    ensures InKeyOrder(map[a := x, b := y]) == [x, y]
  {
    var responses := map[a := x, b := y];
    assert responses.Keys == {a, b};
    TwoSorted(a, b);
    var r := InKeyOrder(responses);
    assert r[0] == x && r[1] == y;
  }

  /** Two keys sort to the smaller, then the larger. */
  lemma TwoSorted(a: nat, b: nat)
    requires a < b
    ensures AscendingKeys({a, b}) == [a, b]
  {
    var r := AscendingKeys({a, b});
    assert |{a, b}| == 2;
    assert r[0] in {a, b} && r[1] in {a, b};
  }

  /** A blank answer, then a plain one: the plain one fills the first marker. */
  lemma BlankThenFill(rest: string, blank: string, x: string)
    requires forall k :: 0 <= k < |blank| ==> blank[k] == ' '
    requires x != [] && '$' !in x && '!' <= x[0] <= '~' && '!' <= x[|x| - 1] <= '~'
    ensures Merge("" + Marker + rest, [blank, x]) == "" + x + rest
  {
    var text := "" + Marker + rest;
    MergeTwo(text, blank, x);
    StepSkipsSpaces(text, blank);
    StepFills("", rest, x);
  }

  lemma BlankTexts()
    ensures "[UNCLEAR] x [UNCLEAR]" == "" + Marker + " x [UNCLEAR]"
    ensures "B x [UNCLEAR]" == "" + "B" + " x [UNCLEAR]"
  {
  }

  /**
   * An answer that does not contain the marker can still complete one with
   * the text before it; the next answer then goes there, and two answers on
   * two markers leave one marker. Hence the hypothesis of `MergeShape`.
   */
  lemma AnswerCanFormMarker()
    ensures var text := "[UNC[UNCLEAR] and [UNCLEAR]";
      var out := Clarified(text, map[0 := "LEAR]", 1 := "B"]);
      && out == "B and [UNCLEAR]"
      && CountMarkers(text) == 2 && CountMarkers(out) == 1
  {
    TwoKeys(0, 1, "LEAR]", "B");
    FormedTexts();
    var text := "[UNC" + Marker + " and [UNCLEAR]";
    MergeTwo(text, "LEAR]", "B");
    StepFills("[UNC", " and [UNCLEAR]", "LEAR]");
    StepFills("", " and [UNCLEAR]", "B");
    FormedCounts();
  }

  lemma FormedCounts()
    ensures CountMarkers("[UNC[UNCLEAR] and [UNCLEAR]") == 2
    ensures CountMarkers("B and [UNCLEAR]") == 1
  {
    FormedTexts();
    CountShortSegments(["[UNC", " and ", ""]);
    CountShortSegments(["B and ", ""]);
  }

  lemma FormedTexts()
    ensures "[UNC[UNCLEAR] and [UNCLEAR]" == "[UNC" + Marker + " and [UNCLEAR]"
    ensures "[UNC" + "LEAR]" + " and [UNCLEAR]" == "" + Marker + " and [UNCLEAR]"
    ensures "B and [UNCLEAR]" == "" + "B" + " and [UNCLEAR]"
    ensures Join(["[UNC", " and ", ""]) == "[UNC[UNCLEAR] and [UNCLEAR]"
    ensures Join(["B and ", ""]) == "B and [UNCLEAR]"
  {
    FormedInput();
    FormedStep();
    FormedOutput();
    FormedInputJoin();
    FormedOutputJoin();
  }

  lemma FormedInput()
    ensures "[UNC[UNCLEAR] and [UNCLEAR]" == "[UNC" + Marker + " and [UNCLEAR]"
  {
  }

  lemma FormedStep()
    ensures "[UNC" + "LEAR]" + " and [UNCLEAR]" == "" + Marker + " and [UNCLEAR]"
  {
  }

  lemma FormedOutput()
    ensures "B and [UNCLEAR]" == "" + "B" + " and [UNCLEAR]"
  {
  }

  lemma FormedInputJoin()
    ensures Join(["[UNC", " and ", ""]) == "[UNC[UNCLEAR] and [UNCLEAR]"
  {
    JoinThree("[UNC", " and ", "");
    FormedInputPieces();
  }

  lemma FormedInputPieces()
    ensures "[UNC" + Marker + (" and " + Marker + "") == "[UNC[UNCLEAR] and [UNCLEAR]"
  {
  }

  /** Three pieces joined: two markers between them. */
  lemma JoinThree(a: string, b: string, c: string)
    ensures Join([a, b, c]) == a + Marker + (b + Marker + c)
  {
    assert [b, c][1..] == [c];
    assert Join([b, c]) == b + Marker + c;
    assert [a, b, c][1..] == [b, c];
    assert Join([a, b, c]) == a + Marker + Join([b, c]);
  }

  lemma FormedOutputJoin()
    ensures Join(["B and ", ""]) == "B and [UNCLEAR]"
  {
    assert ["B and ", ""][1..] == [""];
  }
}
