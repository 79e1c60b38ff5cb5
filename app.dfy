/**
 * The application state and its handlers (App.tsx): the chat of the current
 * session, its files and preview, the streaming flags, the saved-session list
 * and the theme. Each handler updates the fields in place, and its contract
 * ties the new state to the functions of `SessionHistory` and
 * `GenerationTurn`, whose properties are proved there.
 */
module App {
  import opened Types
  import opened Text
  import opened FileExtractor
  import opened PreviewBundler
  import opened ProviderStream
  import opened SessionHistory
  import opened GenerationTurn
  import ImageEdit

  /** Which screen is shown. */
  datatype View = Landing | Workspace

  const DefaultSettings := AISettings(Gemini, "", DefaultGeminiModel)

  /** The key handed to the image edit: the configured one for Gemini, none for any other provider. */
  function ImageKey(settings: AISettings): string {
    if settings.provider == Gemini then settings.apiKey else ""
  }

  /** With OpenRouter configured, an image edit always fails with the missing-key message, whatever its key. */
  lemma ImageEditNeedsGemini(settings: AISettings, reply: ImageEdit.Reply)
    ensures settings.provider == OpenRouter ==>
      ImageEdit.EditImage(ImageKey(settings), reply) == ImageEdit.Failed(ImageEdit.ImageKeyMessage)
    ensures settings.provider == Gemini ==>
      ImageEdit.EditImage(ImageKey(settings), reply) == ImageEdit.EditImage(settings.apiKey, reply)
  {
  }

  class Session {
    var themeIndex: nat
    var sessionId: string
    var sessions: seq<SavedSession>
    var view: View
    var settings: AISettings
    var settingsOpen: bool
    var messages: seq<Message>
    var files: ProjectFiles
    var preview: string
    var streaming: bool
    var aborted: bool

    /** The theme index names a theme and the saved sessions have distinct ids. */
    ghost predicate Valid()
      reads this
    {
      themeIndex < |Themes| && UniqueIds(sessions)
    }

    /** The state at start-up, before anything is loaded from storage. */
    constructor (id: string)
      ensures Valid()
      ensures themeIndex == 0 && sessionId == id && sessions == [] && view == Landing
      ensures settings == DefaultSettings && !settingsOpen
      ensures messages == [] && files == map[] && preview == "" && !streaming && !aborted
    {
      themeIndex := 0;
      sessionId := id;
      sessions := [];
      view := Landing;
      settings := DefaultSettings;
      settingsOpen := false;
      messages := [];
      files := map[];
      preview := "";
      streaming := false;
      aborted := false;
    }

    /** `toggleTheme`: the next of the four themes, wrapping around. */
    method ToggleTheme()
      requires Valid()
      modifies this`themeIndex
      ensures Valid()
      ensures themeIndex == NextTheme(old(themeIndex))
    {
      themeIndex := (themeIndex + 1) % |Themes|;
    }

    /** `saveCurrentSession`: the record of the current session replaces the one with its id, or goes first. */
    method SaveCurrentSession(now: int)
      requires Valid()
      modifies this`sessions
      ensures Valid()
      ensures sessions == Upsert(old(sessions), Record(sessionId, messages, files, preview, now))
    {
      var record := Record(sessionId, messages, files, preview, now);
      UpsertUnique(sessions, record);
      var existing := IndexOfId(sessions, sessionId);
      if existing >= 0 {
        sessions := sessions[existing := record];
      } else {
        sessions := [record] + sessions;
      }
    }

    /** `handleNewChat`: an empty session under a fresh id, back on the landing screen. */
    method NewChat(freshId: string)
      modifies this`messages, this`files, this`preview, this`view, this`sessionId
      ensures messages == [] && files == map[] && preview == "" && view == Landing && sessionId == freshId
    {
      messages := [];
      files := map[];
      preview := "";
      view := Landing;
      sessionId := freshId;
    }

    /** `handleDeleteSession`: drop the records with that id; deleting the current session starts a new one. */
    method DeleteSession(id: string, freshId: string)
      requires Valid()
      modifies this`sessions, this`messages, this`files, this`preview, this`view, this`sessionId
      ensures Valid()
      ensures sessions == Delete(old(sessions), id)
      ensures id == old(sessionId) ==>
        messages == [] && files == map[] && preview == "" && view == Landing && sessionId == freshId
      ensures id != old(sessionId) ==>
        messages == old(messages) && files == old(files) && preview == old(preview) &&
        view == old(view) && sessionId == old(sessionId)
    {
      DeleteUnique(sessions, id);
      sessions := Delete(sessions, id);
      if id == sessionId {
        NewChat(freshId);
      }
    }

    /** `handleCancelGeneration`: ask the running turn to stop. */
    method CancelGeneration()
      modifies this`aborted, this`streaming
      ensures aborted && !streaming
    {
      aborted := true;
      streaming := false;
    }

    /** The `catch` block: the text shown for an error with this message, and whether it asks for the settings. */
    static method ErrorMessage(message: string) returns (text: string, opensSettings: bool)
      ensures text == ErrorText(message) && opensSettings == Contains(message, KeyHint)
    {
      text := InterruptedText;
      opensSettings := false;
      if Contains(message, KeyHint) {
        text := MissingKeyText;
        opensSettings := true;
      } else if message != "" {
        text := message;
      }
    }

    /** A fragment the loop uses: the response grows, the model message shows all of it, and the files found in it are merged and bundled over `pre`. */
    method TakeChunk(acc: string, pre: ProjectFiles, t: string) returns (next: string)
      requires |messages| > 0
      modifies this`messages, this`files, this`preview
      ensures Progress(next, files, preview) == Step(Progress(acc, old(files), old(preview)), pre, t)
      ensures messages == old(messages)[|old(messages)| - 1 := Message(Model, next)]
    {
      next := acc + t;
      messages := messages[|messages| - 1 := Message(Model, next)];
      var found := ParseProjectFiles(next);
      if found != map[] {
        files := files + found;
        preview := Bundle(pre + found);
      }
    }

    /** After the loop: the cancellation note, or the error note (opening the settings for a missing key), after the response. */
    method Annotate(acc: string, broke: bool, ending: Ending, ghost r: Run)
      requires |messages| > 0 && messages[|messages| - 1] == Message(Model, acc)
      requires r.aborted == aborted && r.broke == broke && (broke ==> aborted)
      modifies this`messages, this`settingsOpen
      ensures messages == old(messages)[|old(messages)| - 1 := Message(Model, acc + Annotation(r, ending))]
      ensures settingsOpen == (old(settingsOpen) || OpensSettings(r, ending))
    {
      if broke || ending.Exhausted? {
        if aborted {
          messages := messages[|messages| - 1 := Message(Model, acc + CancelNote)];
        } else {
          assert acc + "" == acc;
        }
      } else {
        var text, opens := ErrorMessage(ending.message);
        if opens {
          settingsOpen := true;
        }
        messages := messages[|messages| - 1 := Message(Model, acc + (ErrorLead + text))];
      }
    }

    /** The `for await` loop: events are taken until they run out or a fragment arrives after a cancel request. */
    method ConsumeEvents(events: seq<Event>, ghost start: Outcome) returns (acc: string, broke: bool, ghost r: Run)
      requires messages == start.messages + [Message(Model, "")]
      requires files == start.files && preview == start.preview && streaming && !aborted
      modifies this`messages, this`files, this`preview, this`streaming, this`aborted
      ensures r == Consume(events) && r.aborted == aborted && r.broke == broke && (broke ==> aborted)
      ensures Fold(Progress("", start.files, start.preview), start.files, r.chunks) == Progress(acc, files, preview)
      ensures messages == start.messages + [Message(Model, acc)]
    {
      var pre := files;
      acc := "";
      ghost var chunks: seq<string> := [];
      var i := 0;
      broke := false;
      while i < |events| && !broke
        invariant 0 <= i <= |events|
        invariant Consume(events[..i]) == Run(chunks, aborted, broke)
        invariant streaming == !aborted && (broke ==> aborted)
        invariant Fold(Progress("", pre, start.preview), pre, chunks) == Progress(acc, files, preview)
        invariant messages == start.messages + [Message(Model, acc)]
        invariant pre == start.files
      {
        ConsumeNext(events, i);
        ghost var before := Run(chunks, aborted, broke);
        match events[i] {
          case Cancel =>
            CancelGeneration();
          case Chunk(t) =>
            if aborted {
              broke := true;
            } else {
              FoldNext(Progress("", pre, start.preview), pre, chunks, t);
              var next := TakeChunk(acc, pre, t);
              ReplaceLast(start.messages, Message(Model, acc), Message(Model, next));
              acc := next;
              chunks := chunks + [t];
            }
        }
        assert Run(chunks, aborted, broke) == ConsumeStep(before, events[i]);
        i := i + 1;
      }
      if broke {
        BrokeStays(events, i);
      } else {
        assert events[..i] == events;
      }
      r := Run(chunks, aborted, broke);
    }

    /** `handleStreamRequest`: one turn over these events and this ending of the stream. */
    method StreamRequest(events: seq<Event>, ending: Ending)
      modifies this`messages, this`files, this`preview, this`settingsOpen, this`streaming, this`aborted
      ensures Outcome(messages, files, preview, settingsOpen) ==
        Turn(Outcome(old(messages), old(files), old(preview), old(settingsOpen)), events, ending)
      ensures !streaming && !aborted
    {
      ghost var start := Outcome(messages, files, preview, settingsOpen);
      streaming := true;
      aborted := false;
      messages := messages + [Message(Model, "")];
      var acc, broke, r := ConsumeEvents(events, start);
      TurnOf(start, events, ending, r, Progress(acc, files, preview));
      Annotate(acc, broke, ending, r);
      ReplaceLast(start.messages, Message(Model, acc), Message(Model, acc + Annotation(r, ending)));
      streaming := false;
      aborted := false;
    }

    /** `handlePromptSubmit` without an image: a prompt on the landing screen opens the workspace and starts the chat with it. */
    method SubmitPrompt(prompt: string, events: seq<Event>, ending: Ending)
      modifies this`view, this`messages, this`files, this`preview, this`settingsOpen, this`streaming, this`aborted
      ensures Trim(prompt) != "" && old(view) == Landing ==>
        view == Workspace &&
        Outcome(messages, files, preview, settingsOpen) ==
          Turn(Outcome([Message(User, prompt)], old(files), old(preview), old(settingsOpen)), events, ending) &&
        !streaming && !aborted
      ensures Trim(prompt) == "" || old(view) != Landing ==>
        view == old(view) && messages == old(messages) && files == old(files) && preview == old(preview) &&
        settingsOpen == old(settingsOpen) && streaming == old(streaming) && aborted == old(aborted)
    {
      if Trim(prompt) == "" {
        return;
      }
      if view == Landing {
        view := Workspace;
        messages := [Message(User, prompt)];
        StreamRequest(events, ending);
      }
    }

    /** `handleWorkspaceMessage`, reached only with a non-blank message while no turn runs. */
    method SendMessage(text: string, events: seq<Event>, ending: Ending)
      requires Trim(text) != "" && !streaming
      modifies this`messages, this`files, this`preview, this`settingsOpen, this`streaming, this`aborted
      ensures Outcome(messages, files, preview, settingsOpen) ==
        Turn(Outcome(old(messages) + [Message(User, text)], old(files), old(preview), old(settingsOpen)), events, ending)
      ensures !streaming && !aborted
    {
      messages := messages + [Message(User, text)];
      ghost var start := Outcome(messages, files, preview, settingsOpen);
      StreamRequest(events, ending);
      assert Outcome(messages, files, preview, settingsOpen) == Turn(start, events, ending);
    }
  }
}
