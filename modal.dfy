/**
 * The clarification dialog (`ClarificationModal`): one text area per unclear
 * segment, and the map of answers typed so far, keyed by segment position.
 * The map lives in the component's state: it is updated one key at a time,
 * handed over on submit and then emptied.
 */
module Modal {
  import opened JsString
  import opened Markers

  class ClarificationModal {
    /** `responses`: segment position to the text typed for it. */
    var responses: map<nat, string>

    /** The dialog starts with no answers. */
    constructor()
      ensures responses == map[]
    {
      responses := map[];
    }

    /**
     * `handleChange(idx, value)`: the text area `idx` now holds `value`; every
     * other entry, present or absent, is as it was.
     */
    method HandleChange(idx: nat, value: string)
      modifies this
      ensures responses == old(responses)[idx := value]
      ensures Displayed(idx) == value
      ensures forall k :: k != idx ==> Displayed(k) == old(Displayed(k))
    {
      responses := responses[idx := value];
    }

    /**
     * `handleSubmit()`: the map as it stands goes to `onResolve`, then the
     * dialog starts over with no answers.
     */
    method HandleSubmit() returns (submitted: map<nat, string>)
      modifies this
      ensures submitted == old(responses)
      ensures responses == map[]
    {
      submitted := responses;
      responses := map[];
    }

    /** What text area `idx` shows: its answer, or the empty string. */
    function Displayed(idx: nat): (v: string)
      reads this
      ensures idx !in responses ==> v == ""
      ensures idx in responses ==> v == responses[idx]
    {
      if idx in responses then responses[idx] else ""
    }

  }

  /** Every key is the position of one of the `n` segments on show. */
  predicate KeysBelow(responses: map<nat, string>, n: nat) {
    forall k :: k in responses ==> k < n
  }

  /**
   * The text areas are numbered by segment position, so typing into one of
   * them keeps every key below the segment count.
   */
  lemma ChangeKeepsKeysBelow(responses: map<nat, string>, n: nat, idx: nat, value: string)
    requires KeysBelow(responses, n) && idx < n
    ensures KeysBelow(responses[idx := value], n)
  {
    var updated := responses[idx := value];
    forall k | k in updated ensures k < n {
      assert k == idx || k in responses;
    }
  }

  /** The submit button is disabled for an empty segment list. */
  predicate SubmitEnabled(segments: seq<Segment>) {
    |segments| != 0
  }

  /** The "No segments to clarify." notice is shown for an empty list. */
  predicate ShowsEmptyNotice(segments: seq<Segment>) {
    |segments| == 0
  }

  /**
   * For segments from a scan of the transcript, the submit button is enabled
   * exactly when the transcript holds a marker, and otherwise the empty
   * notice shows instead.
   */
  lemma ScanEnablesSubmit(text: string)
    ensures SubmitEnabled(Scan(text)) <==> Contains(text, Marker)
    ensures ShowsEmptyNotice(Scan(text)) <==> !SubmitEnabled(Scan(text))
  {
    ScanFindsIffContains(text);
  }

  /** The heading over text area `idx`: "Segment " and the 1-based position. */
  function SegmentLabel(idx: nat): (heading: string)
    ensures |heading| > 8 && heading[..8] == "Segment "
  {
    "Segment " + Decimal(idx + 1)
  }

  /**
   * Labels are 1-based: the number after "Segment " reads back as `idx + 1`,
   * so it is never 0 and two positions never share a label.
   */
  lemma SegmentLabelNumber(idx: nat)
    ensures var heading := SegmentLabel(idx);
      && heading[..8] == "Segment "
      && (forall k :: 8 <= k < |heading| ==> IsDigit(heading[k]))
      && DecimalValue(heading[8..]) == idx + 1
  {
    var heading := SegmentLabel(idx);
    assert heading[8..] == Decimal(idx + 1);
    DecimalRoundTrip(idx + 1);
  }

  /** Different text areas carry different labels. */
  lemma SegmentLabelsDiffer(i: nat, j: nat)
    requires i != j
    ensures SegmentLabel(i) != SegmentLabel(j)
  {
    SegmentLabelNumber(i);
    SegmentLabelNumber(j);
  }
}
