/**
 * The page component `App`: the selected files, the page images collected
 * from them, the transcript in the preview, the dialog state and the error
 * line. Each handler is a method on the component's state; the loops of the
 * source (collecting pages, merging answers) are loops here, proved against
 * the specification functions of `Clarify` and of this module.
 */
module App {
  import opened Wrappers
  import opened JsString
  import opened Markers
  import opened Clarify
  import opened Modal

  /** A selected file: its name and its MIME type (`file.type`). */
  datatype File = File(name: string, mimeType: string)

  /** How the collection loop treats a file. */
  datatype Kind = Pdf | Picture | Unsupported

  /**
   * The PDF test comes first: the type `application/pdf`, or a name ending
   * in `.pdf` in any letter case; then any `image/` type; anything else is
   * unsupported.
   */
  function KindOf(f: File): Kind {
    if f.mimeType == "application/pdf" || EndsWith(ToLowerAscii(f.name), ".pdf") then Pdf
    else if StartsWith(f.mimeType, "image/") then Picture
    else Unsupported
  }

  /**
   * A name whose last four characters spell `.pdf` in any mix of cases makes
   * the file a PDF, whatever its type says, even an `image/` one.
   */
  lemma PdfByNameInAnyCase(f: File)
    requires |f.name| >= 4
    requires f.name[|f.name| - 4] == '.'
    requires LowerAscii(f.name[|f.name| - 3]) == 'p'
    requires LowerAscii(f.name[|f.name| - 2]) == 'd'
    requires LowerAscii(f.name[|f.name| - 1]) == 'f'
    ensures KindOf(f) == Pdf
  {
    var lower := ToLowerAscii(f.name);
    var n := |lower|;
    EndsWithPdf(lower, lower[n - 4], lower[n - 3], lower[n - 2], lower[n - 1]);
  }

  /** A string whose last four characters are `.`, `p`, `d`, `f` ends with `.pdf`. */
  lemma EndsWithPdf(s: string, a: char, b: char, c: char, d: char)
    requires |s| >= 4 && s[|s| - 4] == a && s[|s| - 3] == b && s[|s| - 2] == c && s[|s| - 1] == d
    requires a == '.' && b == 'p' && c == 'd' && d == 'f'
    ensures EndsWith(s, ".pdf")
  {
    assert s[|s| - 4..] == [a, b, c, d];
  }

  /** A file is a picture exactly when it is not a PDF by either test and its type starts with `image/`. */
  lemma PictureExactly(f: File)
    ensures KindOf(f) == Picture <==>
      f.mimeType != "application/pdf" && !EndsWith(ToLowerAscii(f.name), ".pdf") && StartsWith(f.mimeType, "image/")
  {
  }

  /**
   * What one file adds to the page list. `pdfPages` is the PDF rasteriser
   * and `dataUrl` the `FileReader` conversion, both outside this model;
   * `None` means the call threw. A failure adds nothing.
   */
  function Contribution(f: File, pdfPages: File -> Option<seq<string>>, dataUrl: File -> Option<string>): seq<string> {
    match KindOf(f)
    case Pdf => pdfPages(f).GetOr([])
    case Picture => if dataUrl(f).Some? then [dataUrl(f).value] else []
    case Unsupported => []
  }

  /** The page list the collection loop builds: every file's contribution, in file order. */
  function Collected(files: seq<File>, pdfPages: File -> Option<seq<string>>, dataUrl: File -> Option<string>): seq<string>
    decreases |files|
  {
    if files == [] then []
    else Collected(files[..|files| - 1], pdfPages, dataUrl) + Contribution(files[|files| - 1], pdfPages, dataUrl)
  }

  /** Collecting two lists of files one after the other gives the two page lists one after the other. */
  lemma {:induction false} CollectedAppend(xs: seq<File>, ys: seq<File>, pdfPages: File -> Option<seq<string>>, dataUrl: File -> Option<string>)
    ensures Collected(xs + ys, pdfPages, dataUrl) == Collected(xs, pdfPages, dataUrl) + Collected(ys, pdfPages, dataUrl)
    decreases |ys|
  {
    if ys != [] {
      var init := ys[..|ys| - 1];
      var last := ys[|ys| - 1];
      assert (xs + ys)[..|xs + ys| - 1] == xs + init;
      assert (xs + ys)[|xs + ys| - 1] == last;
      CollectedAppend(xs, init, pdfPages, dataUrl);
      assert Collected(xs + ys, pdfPages, dataUrl)
        == Collected(xs + init, pdfPages, dataUrl) + Contribution(last, pdfPages, dataUrl);
      assert Collected(ys, pdfPages, dataUrl)
        == Collected(init, pdfPages, dataUrl) + Contribution(last, pdfPages, dataUrl);
    } else {
      assert xs + ys == xs;
    }
  }

  /** One more file adds its contribution at the end. */
  lemma CollectedSnoc(xs: seq<File>, f: File, pdfPages: File -> Option<seq<string>>, dataUrl: File -> Option<string>)
    ensures Collected(xs + [f], pdfPages, dataUrl) == Collected(xs, pdfPages, dataUrl) + Contribution(f, pdfPages, dataUrl)
  {
    assert (xs + [f])[..|xs|] == xs;
  }

  /** A file that fails, or is unsupported, adds nothing and does not stop the files after it. */
  lemma FailedFileSkipped(xs: seq<File>, f: File, ys: seq<File>, pdfPages: File -> Option<seq<string>>, dataUrl: File -> Option<string>)
    requires Contribution(f, pdfPages, dataUrl) == []
    ensures Collected(xs + [f] + ys, pdfPages, dataUrl) == Collected(xs, pdfPages, dataUrl) + Collected(ys, pdfPages, dataUrl)
  {
    CollectedAppend(xs + [f], ys, pdfPages, dataUrl);
    CollectedSnoc(xs, f, pdfPages, dataUrl);
  }

  /** A PDF adds its pages in order, in the place of the file. */
  lemma PdfPagesInPlace(xs: seq<File>, f: File, ys: seq<File>, pdfPages: File -> Option<seq<string>>, dataUrl: File -> Option<string>)
    requires KindOf(f) == Pdf && pdfPages(f).Some?
    ensures Collected(xs + [f] + ys, pdfPages, dataUrl)
      == Collected(xs, pdfPages, dataUrl) + pdfPages(f).value + Collected(ys, pdfPages, dataUrl)
  {
    CollectedAppend(xs + [f], ys, pdfPages, dataUrl);
    CollectedSnoc(xs, f, pdfPages, dataUrl);
  }

  /** Pictures that all read successfully give one page each, the k-th page from the k-th file. */
  lemma {:induction false} PicturesOnePageEach(files: seq<File>, pdfPages: File -> Option<seq<string>>, dataUrl: File -> Option<string>)
    requires forall k :: 0 <= k < |files| ==> KindOf(files[k]) == Picture && dataUrl(files[k]).Some?
    ensures var pages := Collected(files, pdfPages, dataUrl);
      |pages| == |files| && forall k :: 0 <= k < |files| ==> pages[k] == dataUrl(files[k]).value
    decreases |files|
  {
    if files != [] {
      var init := files[..|files| - 1];
      var last := files[|files| - 1];
      PicturesOnePageEach(init, pdfPages, dataUrl);
      var before := Collected(init, pdfPages, dataUrl);
      assert Contribution(last, pdfPages, dataUrl) == [dataUrl(last).value];
      var pages := before + [dataUrl(last).value];
      assert Collected(files, pdfPages, dataUrl) == pages;
      forall k | 0 <= k < |files| ensures pages[k] == dataUrl(files[k]).value {
        if k < |init| {
          assert init[k] == files[k];
        }
      }
    }
  }

  /** A file the rasteriser failed on: the one case that reports an error. */
  predicate PdfFailed(f: File, pdfPages: File -> Option<seq<string>>) {
    KindOf(f) == Pdf && pdfPages(f).None?
  }

  /** Some PDF among the files failed. */
  predicate AnyPdfFailed(files: seq<File>, pdfPages: File -> Option<seq<string>>) {
    exists k :: 0 <= k < |files| && PdfFailed(files[k], pdfPages)
  }

  /**
   * The conversion loop over the selected files: each file in turn adds its
   * contribution, and a PDF that fails is noted and skipped.
   */
  method CollectPages(files: seq<File>, pdfPages: File -> Option<seq<string>>, dataUrl: File -> Option<string>)
    returns (all: seq<string>, failed: bool)
    ensures all == Collected(files, pdfPages, dataUrl)
    ensures failed <==> AnyPdfFailed(files, pdfPages)
  {
    all := [];
    failed := false;
    var i := 0;
    while i < |files|
      invariant 0 <= i <= |files|
      invariant all == Collected(files[..i], pdfPages, dataUrl)
      invariant failed <==> AnyPdfFailed(files[..i], pdfPages)
    {
      var f := files[i];
      CollectStep(files, i, pdfPages, dataUrl);
      match KindOf(f) {
        case Pdf =>
          var pages := pdfPages(f);
          if pages.Some? {
            all := all + pages.value;
          } else {
            failed := true;
          }
        case Picture =>
          var url := dataUrl(f);
          if url.Some? {
            all := all + [url.value];
          }
        case Unsupported =>
      }
      i := i + 1;
    }
    assert files[..i] == files;
  }

  /** One more file: its contribution goes after the earlier ones, and a failure is noted. */
  lemma CollectStep(files: seq<File>, i: nat, pdfPages: File -> Option<seq<string>>, dataUrl: File -> Option<string>)
    requires i < |files|
    ensures Collected(files[..i + 1], pdfPages, dataUrl) == Collected(files[..i], pdfPages, dataUrl) + Contribution(files[i], pdfPages, dataUrl)
    ensures AnyPdfFailed(files[..i + 1], pdfPages) <==> AnyPdfFailed(files[..i], pdfPages) || PdfFailed(files[i], pdfPages)
  {
    assert files[..i + 1] == files[..i] + [files[i]];
    CollectedSnoc(files[..i], files[i], pdfPages, dataUrl);
    FailedAmongExtended(files[..i], files[i], pdfPages);
  }

  /** The file list with the entry at position `index` filtered out; any other index keeps every file. */
  function WithoutIndex(files: seq<File>, index: int): (r: seq<File>)
    ensures 0 <= index < |files| ==> r == files[..index] + files[index + 1..]
    ensures !(0 <= index < |files|) ==> r == files
    decreases |files|
  {
    if files == [] then []
    else
      var init := WithoutIndex(files[..|files| - 1], index);
      if index == |files| - 1 then init else init + [files[|files| - 1]]
  }

  /** The answer the backend gave to `POST /parse`, as far as the client looks at it. */
  datatype Reply =
    | NoReply                               // fetch itself threw
    | Reply(status: int, body: ReplyBody)

  /** The body as `res.json()` reads it. */
  datatype ReplyBody =
    | Unparsable                            // `res.json()` threw
    | JsonNull                              // `data.markdown` throws on null
    | JsonValue(markdown: Option<string>)   // any other JSON value; its `markdown` field, if a string

  /** `res.ok`. */
  predicate Ok(status: int) {
    200 <= status <= 299
  }

  /** The reply yields a transcript (an empty one if the field is missing). */
  predicate Usable(reply: Reply) {
    reply.Reply? && Ok(reply.status) && reply.body.JsonValue?
  }

  /** The `markdown` field of the reply, or the empty string when it is missing. */
  function Transcript(reply: Reply): (md: string)
    requires Usable(reply)
    ensures reply.body.markdown.Some? ==> md == reply.body.markdown.value
    ensures reply.body.markdown.None? ==> md == ""
  {
    reply.body.markdown.GetOr("")
  }

  const NoImagesError := "Please add at least one image or PDF."
  const PdfError := "Failed to process one of the PDFs."
  const ParseError := "Parsing failed. Check backend."

  class App {
    var files: seq<File>
    /** `base64Images`: the pages to send, from the last collection run that was not canceled. */
    var images: seq<string>
    var markdown: string
    var processing: bool
    var showClarify: bool
    var unclearSegments: seq<Segment>
    var error: string
    /** The dialog stays mounted: its answers outlive closing it. */
    const modal: ClarificationModal

    constructor()
      ensures files == [] && images == [] && markdown == "" && error == ""
      ensures !processing && !showClarify && unclearSegments == []
      ensures fresh(modal) && modal.responses == map[]
    {
      files := [];
      images := [];
      markdown := "";
      processing := false;
      showClarify := false;
      unclearSegments := [];
      error := "";
      modal := new ClarificationModal();
    }

    /** `handleFilesSelected`: the selection goes after the files already chosen, and the error line is cleared. */
    method HandleFilesSelected(selected: seq<File>)
      modifies this
      ensures files == old(files) + selected
      ensures |files| == |old(files)| + |selected|
      ensures forall k :: 0 <= k < |old(files)| ==> files[k] == old(files)[k]
      ensures error == ""
      ensures images == old(images) && markdown == old(markdown) && processing == old(processing)
      ensures showClarify == old(showClarify) && unclearSegments == old(unclearSegments)
    {
      error := "";
      files := files + selected;
    }

    /** `removeFile(index)`: exactly position `index` goes, the others keep their order. */
    method RemoveFile(index: int)
      modifies this
      ensures 0 <= index < |old(files)| ==> |files| == |old(files)| - 1
      ensures 0 <= index < |old(files)| ==> forall k :: 0 <= k < |files| ==>
        files[k] == old(files)[if k < index then k else k + 1]
      ensures !(0 <= index < |old(files)|) ==> files == old(files)
      ensures images == old(images) && markdown == old(markdown) && error == old(error)
      ensures processing == old(processing) && showClarify == old(showClarify)
      ensures unclearSegments == old(unclearSegments)
    {
      files := WithoutIndex(files, index);
    }

    /**
     * One run of the effect on `files`. With no files the run stops at once
     * and the previous pages stay. Otherwise each file in turn adds its
     * contribution; a PDF that fails sets the error line (even on a canceled
     * run) and the loop goes on. The pages are stored only when the run was
     * not canceled by a later change of `files`.
     */
    method ConvertFiles(canceled: bool, pdfPages: File -> Option<seq<string>>, dataUrl: File -> Option<string>)
      modifies this
      ensures files == old(files)
      ensures images == if files == [] || canceled then old(images) else Collected(files, pdfPages, dataUrl)
      ensures error == if files != [] && AnyPdfFailed(files, pdfPages) then PdfError else old(error)
      ensures markdown == old(markdown) && processing == old(processing)
      ensures showClarify == old(showClarify) && unclearSegments == old(unclearSegments)
    {
      if |files| == 0 {
        return;
      }
      var all, failed := CollectPages(files, pdfPages, dataUrl);
      if failed {
        error := PdfError;
      }
      if !canceled {
        images := all;
      }
    }

    /**
     * `handleParse`, from the click to the `finally`. With no pages it only
     * sets the error line and sends nothing. Otherwise it sends the pages
     * once; a usable reply puts its transcript in the preview and, when the
     * transcript holds a marker, lists one segment per marker and opens the
     * dialog; any failure leaves the preview empty and sets the error line.
     * `processing` is on only while the request is out, so it is off again
     * when the method returns.
     */
    method HandleParse(backend: seq<string> -> Reply) returns (sent: Option<seq<string>>)
      modifies this
      ensures images == [] ==>
        && sent == None && error == NoImagesError
        && markdown == old(markdown) && processing == old(processing)
        && showClarify == old(showClarify) && unclearSegments == old(unclearSegments)
      ensures images != [] ==> sent == Some(images) && !processing
      ensures images != [] && Usable(backend(images)) ==>
        && markdown == Transcript(backend(images)) && error == ""
        && (Contains(markdown, Marker) ==> showClarify && unclearSegments == Scan(markdown))
        && (!Contains(markdown, Marker) ==> showClarify == old(showClarify) && unclearSegments == old(unclearSegments))
      ensures images != [] && !Usable(backend(images)) ==>
        && markdown == "" && error == ParseError
        && showClarify == old(showClarify) && unclearSegments == old(unclearSegments)
      ensures files == old(files) && images == old(images)
      ensures modal.responses == old(modal.responses)
    {
      if |images| == 0 {
        error := NoImagesError;
        return None;
      }
      processing := true;
      error := "";
      markdown := "";
      sent := Some(images);
      var reply := backend(images);
      if Usable(reply) {
        markdown := Transcript(reply);
        if Contains(markdown, Marker) {
          unclearSegments := Scan(markdown);
          showClarify := true;
        }
      } else {
        error := ParseError;
      }
      processing := false;
    }

    /**
     * `applyClarifications(responses)`: the answers are taken in ascending
     * key order, each non-blank one replacing the leftmost marker left; then
     * the dialog closes and its segment list is emptied.
     */
    method ApplyClarifications(responses: map<nat, string>)
      modifies this
      ensures markdown == Clarified(old(markdown), responses)
      ensures !showClarify && unclearSegments == []
      ensures files == old(files) && images == old(images) && error == old(error) && processing == old(processing)
    {
      var updated := MergeResponses(markdown, responses);
      markdown := updated;
      showClarify := false;
      unclearSegments := [];
    }

    /** Cancel, or closing the dialog: only `showClarify` changes; the typed answers stay for the next opening. */
    method CloseClarify()
      modifies this
      ensures !showClarify
      ensures modal.responses == old(modal.responses)
      ensures markdown == old(markdown) && unclearSegments == old(unclearSegments)
      ensures files == old(files) && images == old(images) && error == old(error) && processing == old(processing)
    {
      showClarify := false;
    }

    /**
     * "Apply Clarifications": the dialog hands over its answers, forgets them,
     * and the merge runs on them. The button is reachable only while the
     * dialog is open and enabled only when there is a segment to clarify.
     */
    method SubmitClarifications()
      requires showClarify && SubmitEnabled(unclearSegments)
      modifies this, modal
      ensures markdown == Clarified(old(markdown), old(modal.responses))
      ensures modal.responses == map[]
      ensures !showClarify && unclearSegments == []
      ensures files == old(files) && images == old(images) && error == old(error) && processing == old(processing)
    {
      var submitted := modal.HandleSubmit();
      ApplyClarifications(submitted);
    }
  }

  /** Adding one file to the prefix: an error is reported for the longer prefix exactly when one was, or the new file is a failed PDF. */
  lemma FailedAmongExtended(prefix: seq<File>, f: File, pdfPages: File -> Option<seq<string>>)
    ensures AnyPdfFailed(prefix + [f], pdfPages) <==> AnyPdfFailed(prefix, pdfPages) || PdfFailed(f, pdfPages)
  {
    var ext := prefix + [f];
    if AnyPdfFailed(prefix, pdfPages) {
      var k :| 0 <= k < |prefix| && PdfFailed(prefix[k], pdfPages);
      assert ext[k] == prefix[k];
    }
    if PdfFailed(f, pdfPages) {
      assert ext[|prefix|] == f;
    }
    if AnyPdfFailed(ext, pdfPages) && !PdfFailed(f, pdfPages) {
      var k :| 0 <= k < |ext| && PdfFailed(ext[k], pdfPages);
      assert k < |prefix| && ext[k] == prefix[k];
    }
  }

  /** With no answers at all the transcript is unchanged. */
  lemma EmptyResponsesKeepTranscript(text: string)
    ensures Clarified(text, map[]) == text
  {
    var none: map<nat, string> := map[];
    assert |AscendingKeys(none.Keys)| == 0;
    assert InKeyOrder(none) == [];
  }

  /**
   * The dialog stays mounted and empties its answers only on submit, and a new
   * transcription does not touch them. So a non-blank answer typed before a
   * cancel, under any key, even one beyond the new transcript's markers, fills
   * the first marker of the new transcript, trimmed, when the dialog is next
   * submitted.
   */
  lemma StaleAnswerFillsNewMarker(before: string, after: string, key: nat, stale: string)
    requires Free(before) && '$' !in stale && !IsBlank(stale)
    ensures Clarified(before + Marker + after, map[key := stale]) == before + Trim(stale) + after
  {
    KeyDoesNotChooseMarker(before + Marker + after, key, stale);
    AppliedDollarFree([stale]);
    assert Applied([stale]) == [Trim(stale)];
    ReplaceAfterFree(before, after, Trim(stale));
  }
}
