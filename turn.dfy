/**
 * One generation turn (App.tsx `handleStreamRequest`, `handleCancelGeneration`)
 * as a function of what happens during it.
 *
 * The turn sees the fragments of the provider stream, interleaved with
 * cancel requests made between two fragments, and then the stream's ending.
 * Each fragment is added to the accumulated response, which replaces the
 * content of the model message added at the start; the files are extracted
 * from the whole response again and, when there are any, merged into the file
 * map and bundled into the preview. A fragment that arrives after a cancel
 * request is dropped and ends the loop. The message then gets a cancellation
 * note or an error note.
 */
module GenerationTurn {
  import opened Types
  import opened Text
  import opened FileExtractor
  import opened PreviewBundler
  import opened ProviderStream
  import EventStream

  const CancelNote := "\n\n*[Generation cancelled by user]*"
  const ErrorLead := "\n\n**Error:** "
  const MissingKeyText := "Missing " + KeyHint + ". Please configure it in Settings."
  const InterruptedText := "Connection interrupted."

  /** What reaches the loop: a fragment of the stream, or a cancel request before the next one. */
  datatype Event = Chunk(text: string) | Cancel

  /** The text shown after `**Error:**` for an error with this message; the empty message stands for none. */
  function ErrorText(message: string): (r: string)
    ensures r != ""
  {
    if Contains(message, KeyHint) then MissingKeyText
    else if message == "" then InterruptedText
    else message
  }

  /** The missing-key text is shown exactly for errors that mention the API key. */
  lemma ErrorTextMissingKey(message: string)
    ensures ErrorText(message) == MissingKeyText <==> Contains(message, KeyHint)
  {
    if ErrorText(message) == MissingKeyText {
      ContainsIff(MissingKeyText, KeyHint);
      IsAtMiddle("Missing ", KeyHint, ". Please configure it in Settings.");
    }
  }

  // ---------------------------------------------------------------------------
  // Which fragments the loop consumes

  /** The fragments consumed, whether a cancel was requested, and whether a late fragment ended the loop. */
  datatype Run = Run(chunks: seq<string>, aborted: bool, broke: bool)

  /** One more event. */
  function ConsumeStep(r: Run, e: Event): Run {
    if r.broke then r
    else match e
      case Cancel => Run(r.chunks, true, false)
      case Chunk(t) => if r.aborted then Run(r.chunks, true, true) else Run(r.chunks + [t], false, false)
  }

  /** The events in order. */
  function Consume(events: seq<Event>): Run {
    if events == [] then Run([], false, false)
    else ConsumeStep(Consume(events[..|events| - 1]), events[|events| - 1])
  }

  /** The texts of all fragments among the events. */
  function ChunkTexts(events: seq<Event>): seq<string> {
    if events == [] then []
    else ChunkTexts(events[..|events| - 1]) + (if events[|events| - 1].Chunk? then [events[|events| - 1].text] else [])
  }

  /** Event `i` is a fragment arriving after a cancel request. */
  predicate Late(events: seq<Event>, i: int)
    requires 0 <= i < |events|
  {
    events[i].Chunk? && Cancel in events[..i]
  }

  /** Consuming up to the first late fragment: every fragment is taken and the cancel requests are remembered. */
  lemma {:induction false} ConsumeNoLate(events: seq<Event>)
    requires forall i :: 0 <= i < |events| ==> !Late(events, i)
    ensures Consume(events) == Run(ChunkTexts(events), Cancel in events, false)
  {
    if events != [] {
      var n := |events| - 1;
      var init := events[..n];
      forall i | 0 <= i < |init|
        ensures !Late(init, i)
      {
        assert !Late(events, i);
        assert init[..i] == events[..i];
      }
      ConsumeNoLate(init);
      assert events == init + [events[n]];
      if events[n].Chunk? {
        assert !Late(events, n);
      }
    }
  }

  /** One more event of the same sequence. */
  lemma ConsumeNext(events: seq<Event>, i: int)
    requires 0 <= i < |events|
    ensures Consume(events[..i + 1]) == ConsumeStep(Consume(events[..i]), events[i])
  {
    assert events[..i + 1][..i] == events[..i];
  }

  /** Once a late fragment ended the loop, later events change nothing. */
  lemma {:induction false} BrokeStays(events: seq<Event>, k: int)
    requires 0 <= k <= |events| && Consume(events[..k]).broke
    ensures Consume(events) == Consume(events[..k])
    decreases |events| - k
  {
    if k < |events| {
      assert events[..k + 1][..k] == events[..k];
      BrokeStays(events, k + 1);
    } else {
      assert events[..k] == events;
    }
  }

  /** The first late fragment ends the loop: the fragments before it are consumed, it and all later ones are not. */
  lemma ConsumeLate(events: seq<Event>, i: int)
    requires 0 <= i < |events| && Late(events, i)
    requires forall j :: 0 <= j < i ==> !Late(events, j)
    ensures Consume(events) == Run(ChunkTexts(events[..i]), true, true)
  {
    var init := events[..i];
    forall j | 0 <= j < |init|
      ensures !Late(init, j)
    {
      assert !Late(events, j);
      assert init[..j] == events[..j];
    }
    ConsumeNoLate(init);
    assert events[..i + 1][..i] == init;
    BrokeStays(events, i + 1);
  }

  // ---------------------------------------------------------------------------
  // What the consumed fragments do

  /** The accumulated response, the file map and the preview. */
  datatype Progress = Progress(acc: string, files: ProjectFiles, preview: string)

  /** One fragment: accumulate, extract from the whole response, and merge and bundle when anything was found. */
  function Step(p: Progress, pre: ProjectFiles, t: string): Progress {
    var acc := p.acc + t;
    var found := Extract(acc);
    if found == map[] then Progress(acc, p.files, p.preview)
    else Progress(acc, p.files + found, Bundle(pre + found))
  }

  /** A fragment is appended to the response, and the map never loses a file. */
  lemma StepGrows(p: Progress, pre: ProjectFiles, t: string)
    ensures Step(p, pre, t).acc == p.acc + t
    ensures p.files.Keys <= Step(p, pre, t).files.Keys
  {
  }

  /** The fragments in order; `pre` is the file map as it was when the turn started. */
  function Fold(p: Progress, pre: ProjectFiles, chunks: seq<string>): Progress {
    if chunks == [] then p
    else Step(Fold(p, pre, chunks[..|chunks| - 1]), pre, chunks[|chunks| - 1])
  }

  /** One more fragment. */
  lemma FoldNext(p: Progress, pre: ProjectFiles, chunks: seq<string>, t: string)
    ensures Fold(p, pre, chunks + [t]) == Step(Fold(p, pre, chunks), pre, t)
  {
    assert (chunks + [t])[..|chunks|] == chunks;
  }

  /** The response is everything consumed, in order. */
  lemma {:induction false} FoldAcc(p: Progress, pre: ProjectFiles, chunks: seq<string>)
    ensures Fold(p, pre, chunks).acc == p.acc + Concat(chunks)
  {
    if chunks != [] {
      var init := chunks[..|chunks| - 1];
      FoldAcc(p, pre, init);
      StepGrows(Fold(p, pre, init), pre, chunks[|chunks| - 1]);
    }
  }

  /** No file is ever dropped from the map. */
  lemma {:induction false} FoldKeeps(p: Progress, pre: ProjectFiles, chunks: seq<string>, k: string)
    requires k in p.files
    ensures k in Fold(p, pre, chunks).files
  {
    if chunks != [] {
      var init := chunks[..|chunks| - 1];
      FoldKeeps(p, pre, init, k);
      StepGrows(Fold(p, pre, init), pre, chunks[|chunks| - 1]);
    }
  }

  /** Merging an update whose keys a later update also has is merging the later one alone. */
  lemma MergeCovered(pre: ProjectFiles, earlier: ProjectFiles, later: ProjectFiles)
    requires earlier.Keys <= later.Keys
    ensures pre + earlier + later == pre + later
  {
  }

  /**
   * A fragment keeps the map at the turn's starting files merged with the
   * latest extraction: every earlier extraction named only files the latest
   * one names too.
   */
  lemma StepLatest(q0: Progress, pre: ProjectFiles, t: string)
    requires Extract(q0.acc) == map[] ==> q0.files == pre
    requires Extract(q0.acc) != map[] ==> q0.files == pre + Extract(q0.acc)
    ensures var q := Step(q0, pre, t); var found := Extract(q.acc);
      found != map[] ==> q.files == pre + found && q.preview == Bundle(pre + found)
  {
    var found := Extract(q0.acc + t);
    if found != map[] && Extract(q0.acc) != map[] {
      ExtractKeysGrow(q0.acc, t);
      MergeCovered(pre, Extract(q0.acc), found);
    }
  }

  /**
   * Once the response yields files, the map is the turn's starting files
   * merged with what the whole response yields, and the preview bundles the same.
   */
  lemma {:induction false} FoldLatest(p: Progress, pre: ProjectFiles, chunks: seq<string>)
    requires p.acc == "" && p.files == pre
    ensures var q := Fold(p, pre, chunks); var found := Extract(q.acc);
      found != map[] ==> q.files == pre + found && q.preview == Bundle(pre + found)
  {
    if chunks == [] {
      ExtractEmptyIff("");
    } else {
      var init := chunks[..|chunks| - 1];
      FoldLatest(p, pre, init);
      FoldNoFiles(p, pre, init);
      StepLatest(Fold(p, pre, init), pre, chunks[|chunks| - 1]);
    }
  }

  /** Text without any extracted file leaves the map and preview as they were. */
  lemma {:induction false} FoldNoFiles(p: Progress, pre: ProjectFiles, chunks: seq<string>)
    requires p.acc == ""
    ensures var q := Fold(p, pre, chunks);
      Extract(q.acc) == map[] ==> q.files == p.files && q.preview == p.preview
  {
    if chunks != [] {
      var init := chunks[..|chunks| - 1];
      var q0 := Fold(p, pre, init);
      var t := chunks[|chunks| - 1];
      FoldNoFiles(p, pre, init);
      ExtractEmptyIff(q0.acc);
      ExtractEmptyIff(q0.acc + t);
      if FirstMarker(q0.acc, 0).Some? {
        MarkerPersists(q0.acc, t);
      }
    }
  }

  // ---------------------------------------------------------------------------
  // The whole turn

  /** The note added to the model message when the loop is over. */
  function Annotation(r: Run, ending: Ending): string {
    if r.broke then CancelNote
    else match ending
      case Thrown(m) => ErrorLead + ErrorText(m)
      case Exhausted => if r.aborted then CancelNote else ""
  }

  /** The settings panel opens for an error that mentions the API key. */
  predicate OpensSettings(r: Run, ending: Ending) {
    !r.broke && ending.Thrown? && Contains(ending.message, KeyHint)
  }

  /** The cancellation note is added exactly when a cancel was requested and the stream did not fail first. */
  lemma CancelNoteIff(r: Run, ending: Ending)
    ensures Annotation(r, ending) == CancelNote <==> r.broke || (ending == Exhausted && r.aborted)
  {
    if !r.broke && ending.Thrown? {
      var a := Annotation(r, ending);
      assert a[3] == '*' && CancelNote[3] == '[';
    }
  }

  /** What the turn leaves behind. */
  datatype Outcome = Outcome(messages: seq<Message>, files: ProjectFiles, preview: string, settingsOpen: bool)

  /** The turn, from the messages, files, preview and settings flag it starts with. */
  function Turn(start: Outcome, events: seq<Event>, ending: Ending): Outcome {
    var r := Consume(events);
    var q := Fold(Progress("", start.files, start.preview), start.files, r.chunks);
    Outcome(start.messages + [Message(Model, q.acc + Annotation(r, ending))],
            q.files, q.preview,
            start.settingsOpen || OpensSettings(r, ending))
  }

  /** Replacing the last element of a sequence. */
  lemma ReplaceLast<T>(s: seq<T>, x: T, y: T)
    ensures (s + [x])[|s| := y] == s + [y]
  {
  }

  /** The turn in terms of the run and the progress it reaches. */
  lemma TurnOf(start: Outcome, events: seq<Event>, ending: Ending, r: Run, q: Progress)
    requires r == Consume(events) && q == Fold(Progress("", start.files, start.preview), start.files, r.chunks)
    ensures Turn(start, events, ending) ==
      Outcome(start.messages + [Message(Model, q.acc + Annotation(r, ending))], q.files, q.preview,
              start.settingsOpen || OpensSettings(r, ending))
  {
  }

  /** A turn appends exactly one model message, holding every consumed fragment and then the note, and keeps the earlier messages. */
  lemma TurnMessages(start: Outcome, events: seq<Event>, ending: Ending)
    ensures var o := Turn(start, events, ending); var r := Consume(events);
      |o.messages| == |start.messages| + 1 &&
      o.messages[..|start.messages|] == start.messages &&
      o.messages[|start.messages|] == Message(Model, Concat(r.chunks) + Annotation(r, ending))
  {
    var r := Consume(events);
    FoldAcc(Progress("", start.files, start.preview), start.files, r.chunks);
    assert "" + Concat(r.chunks) == Concat(r.chunks);
  }

  /** A turn without cancel requests consumes every fragment and adds the error note or nothing. */
  lemma TurnUncancelled(start: Outcome, events: seq<Event>, ending: Ending)
    requires Cancel !in events
    ensures var o := Turn(start, events, ending);
      o.messages[|start.messages|].content
        == Concat(ChunkTexts(events)) + (if ending.Thrown? then ErrorLead + ErrorText(ending.message) else "")
  {
    forall i | 0 <= i < |events|
      ensures !Late(events, i)
    {
      assert Cancel !in events[..i] by {
        forall j | 0 <= j < i
          ensures events[..i][j] != Cancel
        {
          assert events[..i][j] == events[j];
        }
      }
    }
    ConsumeNoLate(events);
    TurnMessages(start, events, ending);
  }

  /** The file map only grows during a turn; when the response yields files, map and preview are the starting files merged with them, otherwise both are unchanged. */
  lemma TurnFiles(start: Outcome, events: seq<Event>, ending: Ending)
    ensures var o := Turn(start, events, ending); var r := Consume(events); var found := Extract(Concat(r.chunks));
      start.files.Keys <= o.files.Keys &&
      (found == map[] ==> o.files == start.files && o.preview == start.preview) &&
      (found != map[] ==> o.files == start.files + found && o.preview == Bundle(start.files + found))
  {
    var r := Consume(events);
    var p := Progress("", start.files, start.preview);
    FoldAcc(p, start.files, r.chunks);
    assert "" + Concat(r.chunks) == Concat(r.chunks);
    FoldNoFiles(p, start.files, r.chunks);
    FoldLatest(p, start.files, r.chunks);
  }

  // ---------------------------------------------------------------------------
  // A turn over a provider stream

  /** The events of a stream whose fragments all arrive without a cancel request. */
  function Feed(fragments: seq<string>): (r: seq<Event>)
    ensures |r| == |fragments| && forall i :: 0 <= i < |r| ==> r[i] == Chunk(fragments[i])
  {
    if fragments == [] then [] else Feed(fragments[..|fragments| - 1]) + [Chunk(fragments[|fragments| - 1])]
  }

  /** Every fragment of the stream is one fragment of the turn. */
  lemma {:induction false} FeedTexts(fragments: seq<string>)
    ensures ChunkTexts(Feed(fragments)) == fragments && Cancel !in Feed(fragments)
  {
    if fragments != [] {
      var init := fragments[..|fragments| - 1];
      FeedTexts(init);
      assert Feed(fragments)[..|fragments| - 1] == Feed(init);
      assert fragments == init + [fragments[|fragments| - 1]];
    }
  }

  /** Without a cancel request, the model message shows exactly what the provider yielded, then the error note if the stream failed. */
  lemma StreamTurn(start: Outcome, settings: AISettings, up: Upstream, decode: string -> EventStream.Decoded)
    ensures var s := GenerationStream(settings, up, decode); var o := Turn(start, Feed(s.fragments), s.ending);
      o.messages == start.messages +
        [Message(Model, Concat(s.fragments) + (if s.ending.Thrown? then ErrorLead + ErrorText(s.ending.message) else ""))]
  {
    var s := GenerationStream(settings, up, decode);
    FeedTexts(s.fragments);
    TurnUncancelled(start, Feed(s.fragments), s.ending);
    TurnMessages(start, Feed(s.fragments), s.ending);
  }

  /** Without an API key the turn shows only the missing-key note, opens the settings and changes no file. */
  lemma MissingKeyTurn(start: Outcome, settings: AISettings, up: Upstream, decode: string -> EventStream.Decoded)
    requires settings.apiKey == ""
    ensures var s := GenerationStream(settings, up, decode); var o := Turn(start, Feed(s.fragments), s.ending);
      o == Outcome(start.messages + [Message(Model, ErrorLead + MissingKeyText)], start.files, start.preview, true)
  {
    var s := GenerationStream(settings, up, decode);
    MissingKey(settings, up, decode);
    assert Feed(s.fragments) == [];
    assert "" + (ErrorLead + MissingKeyText) == ErrorLead + MissingKeyText;
  }
}
