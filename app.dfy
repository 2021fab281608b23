/** The application shell: the open note, its file, its editing sessions and
    the save, save-as, open and new actions. The file service and the clock
    are inputs: each action that asks for a file gets the handle the service
    returned (or `None`), and each action that reads the clock gets `now`. */
module App {
  import opened Types
  import opened Constants

  /** A file the service handed out; `id` tells files with one name apart. */
  datatype FileHandle = FileHandle(id: nat, name: string)

  /** A note file as it reads back from disk: an object whose top-level
      fields may each be missing or null, or the value `null` itself. */
  datatype ParsedNote =
    | ParsedNote(
        content: Option<seq<CustomElement>>,
        history: Option<History>,
        sessions: Option<seq<SessionData>>)
    | NullNote

  /** What the open dialog gives back. */
  datatype OpenResult = OpenResult(handle: FileHandle, data: ParsedNote)

  /** A saved file as it reads back: every field present. */
  function Parsed(f: NoteFileStructure): ParsedNote
  {
    ParsedNote(Some(f.content), Some(f.history), Some(f.sessions))
  }

  /** A session that opens at `now`. */
  function FreshSession(now: int): SessionData
  {
    SessionData(now, None, 0.0, false)
  }

  /** The content a loaded file gives; a missing one is the empty note. */
  function ContentOr(c: Option<seq<CustomElement>>): seq<CustomElement>
  {
    if c.Some? then c.value else INITIAL_CONTENT
  }

  /** The history a loaded file gives; a missing or null one is an empty
      undo/redo history. */
  function HistoryOr(h: Option<History>): (r: History)
    ensures r.UndoRedo?
    ensures h.Some? && h.value.UndoRedo? ==> r == h.value
    ensures !(h.Some? && h.value.UndoRedo?) ==> r == UndoRedo([], [])
  {
    if h.Some? && h.value.UndoRedo? then h.value else UndoRedo([], [])
  }

  function SessionsOr(s: Option<seq<SessionData>>): seq<SessionData>
  {
    if s.Some? then s.value else []
  }

  // ---------------------------------------------------------------------
  // Application states and what each action makes of them

  datatype AppData = AppData(
    content: seq<CustomElement>,
    history: History,
    fileHandle: Option<FileHandle>,
    fileName: string,
    sessions: seq<SessionData>,
    currentSession: SessionData,
    isSaving: bool,
    autosavePending: bool)

  /** The state the application starts in. */
  function Initial(now: int): AppData
  {
    AppData(INITIAL_CONTENT, NullHistory, None, "Untitled", [], FreshSession(now), false, false)
  }

  /** The file written by a save or a save-as at time `now`: the content and
      history as they are, the earlier sessions followed by the current one
      closed at `now`. */
  function Snapshot(s: AppData, now: int): NoteFileStructure
  {
    var closing := s.currentSession.(closeTimestamp := Some(now));
    NoteFileStructure(s.content, s.history, s.sessions + [closing], Meta(1, now))
  }

  function AfterSaveStarted(s: AppData): AppData
  {
    s.(isSaving := true)
  }

  /** A save has come back: a handle is adopted only when the note had none. */
  function AfterSaveFinished(s: AppData, saved: Option<FileHandle>): AppData
  {
    var adopt := saved.Some? && s.fileHandle.None?;
    s.(fileHandle := if adopt then saved else s.fileHandle,
       fileName := if adopt then saved.value.name else s.fileName,
       isSaving := false)
  }

  /** A save-as has come back: any handle returned is adopted. */
  function AfterSaveAsFinished(s: AppData, saved: Option<FileHandle>): AppData
  {
    match saved
    case None => s
    case Some(h) => s.(fileHandle := saved, fileName := h.name)
  }

  /** The editor reported new content: it is stored, the session is marked
      modified, and a note with a file gets its autosave (re)scheduled. */
  function AfterEditorChange(s: AppData, content: seq<CustomElement>, history: History): AppData
  {
    s.(content := content, history := history,
       currentSession := s.currentSession.(modified := true),
       autosavePending := s.autosavePending || s.fileHandle.Some?)
  }

  /** The autosave timer fired and started a save. */
  function AfterAutosaveFired(s: AppData): AppData
  {
    AfterSaveStarted(s.(autosavePending := false))
  }

  /** The open dialog came back; a file that was read replaces the note and
      starts a new session. A file holding `null` gets its handle and name
      adopted, and then reading its content fails, so the rest of the note
      stays as it was. */
  function AfterOpen(s: AppData, result: Option<OpenResult>, now: int): AppData
  {
    match result
    case None => s
    case Some(r) =>
      var named := s.(fileHandle := Some(r.handle), fileName := r.handle.name);
      match r.data
      case NullNote => named
      case ParsedNote(content, history, sessions) =>
        named.(content := ContentOr(content),
               history := HistoryOr(history),
               sessions := SessionsOr(sessions),
               currentSession := FreshSession(now))
  }

  /** A new, untitled note with no file. */
  function AfterNew(s: AppData, now: int): AppData
  {
    s.(fileHandle := None, fileName := "Untitled", content := INITIAL_CONTENT,
       history := UndoRedo([], []), sessions := [], currentSession := FreshSession(now))
  }

  /** The session being edited is still open. */
  predicate CurrentSessionOpen(s: AppData)
  {
    s.currentSession.closeTimestamp.None?
  }

  /** A scheduled autosave has a file to write to. */
  predicate AutosaveHasFile(s: AppData)
  {
    s.autosavePending ==> s.fileHandle.Some?
  }

  // ---------------------------------------------------------------------
  // The application object

  class AppState {
    var content: seq<CustomElement>
    var history: History
    var fileHandle: Option<FileHandle>
    var fileName: string
    var sessions: seq<SessionData>
    var currentSession: SessionData
    var isSaving: bool
    var autosavePending: bool

    function State(): AppData
      reads this
    {
      AppData(content, history, fileHandle, fileName, sessions, currentSession, isSaving, autosavePending)
    }

    constructor (now: int)
      ensures State() == Initial(now)
    {
      content := INITIAL_CONTENT;
      history := NullHistory;
      fileHandle := None;
      fileName := "Untitled";
      sessions := [];
      currentSession := FreshSession(now);
      isSaving := false;
      autosavePending := false;
    }

    /** The first half of a save: marks the save in progress and hands the
        snapshot and the current handle (if any) to the file service. */
    method Save(now: int) returns (data: NoteFileStructure, target: Option<FileHandle>)
      modifies this
      ensures data == Snapshot(old(State()), now) && target == old(fileHandle)
      ensures State() == AfterSaveStarted(old(State()))
    {
      isSaving := true;
      var closing := currentSession.(closeTimestamp := Some(now));
      data := NoteFileStructure(content, history, sessions + [closing], Meta(1, now));
      target := fileHandle;
    }

    /** The second half of a save, once the file service has answered. */
    method FinishSave(saved: Option<FileHandle>)
      modifies this
      ensures State() == AfterSaveFinished(old(State()), saved)
    {
      if saved.Some? {
        if fileHandle.None? {
          fileHandle := saved;
          fileName := saved.value.name;
        }
      }
      isSaving := false;
    }

    /** The autosave timer fires and starts a save. */
    method AutosaveFires(now: int) returns (data: NoteFileStructure, target: Option<FileHandle>)
      requires autosavePending
      modifies this
      ensures data == Snapshot(old(State()), now) && target == old(fileHandle)
      ensures State() == AfterAutosaveFired(old(State()))
    {
      autosavePending := false;
      data, target := Save(now);
    }

    /** The first half of a save-as: the snapshot for the file service; the
        state does not change. */
    method SaveAs(now: int) returns (data: NoteFileStructure)
      ensures data == Snapshot(State(), now)
    {
      var closing := currentSession.(closeTimestamp := Some(now));
      data := NoteFileStructure(content, history, sessions + [closing], Meta(1, now));
    }

    method FinishSaveAs(saved: Option<FileHandle>)
      modifies this
      ensures State() == AfterSaveAsFinished(old(State()), saved)
    {
      if saved.Some? {
        fileHandle := saved;
        fileName := saved.value.name;
      }
    }

    method EditorChange(newContent: seq<CustomElement>, newHistory: History)
      modifies this
      ensures State() == AfterEditorChange(old(State()), newContent, newHistory)
    {
      content := newContent;
      history := newHistory;
      if !currentSession.modified {
        currentSession := currentSession.(modified := true);
      }
      if fileHandle.Some? {
        autosavePending := true;
      }
    }

    method Open(result: Option<OpenResult>, now: int)
      modifies this
      ensures State() == AfterOpen(old(State()), result, now)
    {
      if result.Some? {
        var handle := result.value.handle;
        var data := result.value.data;
        fileHandle := Some(handle);
        fileName := handle.name;
        if data.NullNote? {
          return;
        }
        content := ContentOr(data.content);
        history := HistoryOr(data.history);
        sessions := SessionsOr(data.sessions);
        currentSession := FreshSession(now);
      }
    }

    method New(now: int)
      modifies this
      ensures State() == AfterNew(old(State()), now)
    {
      fileHandle := None;
      fileName := "Untitled";
      content := INITIAL_CONTENT;
      history := UndoRedo([], []);
      sessions := [];
      currentSession := FreshSession(now);
    }
  }

  // ---------------------------------------------------------------------
  // Properties of the actions

  /** A snapshot keeps every earlier session as it was and appends the
      current one, closed at the save time; content and history are passed
      through and the format version is 1. */
  lemma SnapshotRecordsSessions(s: AppData, now: int)
    ensures var f := Snapshot(s, now);
      && |f.sessions| == |s.sessions| + 1
      && f.sessions[..|s.sessions|] == s.sessions
      && f.sessions[|s.sessions|].closeTimestamp == Some(now)
      && f.sessions[|s.sessions|].openTimestamp == s.currentSession.openTimestamp
      && f.sessions[|s.sessions|].durationSeconds == s.currentSession.durationSeconds
      && f.sessions[|s.sessions|].modified == s.currentSession.modified
      && f.content == s.content && f.history == s.history
      && f.meta == Meta(1, now)
  {
    assert (s.sessions + [s.currentSession.(closeTimestamp := Some(now))])[..|s.sessions|] == s.sessions;
  }

  /** Saving writes the same data whether it is a save or a save-as, and
      does not record the session in the state: saving again later writes
      the same earlier sessions once more, with one entry for the current
      session. */
  lemma SavesDoNotAccumulate(s: AppData, saved: Option<FileHandle>, now1: int, now2: int)
    ensures var t := AfterSaveFinished(AfterSaveStarted(s), saved);
      && t.sessions == s.sessions && t.currentSession == s.currentSession
      && Snapshot(t, now2).sessions[..|s.sessions|] == Snapshot(s, now1).sessions[..|s.sessions|]
      && |Snapshot(t, now2).sessions| == |Snapshot(s, now1).sessions|
  {
    SnapshotRecordsSessions(s, now1);
    SnapshotRecordsSessions(AfterSaveFinished(AfterSaveStarted(s), saved), now2);
  }

  /** A save in progress is flagged, and the flag is down once it returns;
      a save adopts the returned handle and its name only when the note had
      no file, and otherwise changes nothing but the flag. */
  lemma SaveKeepsItsFile(s: AppData, saved: Option<FileHandle>)
    ensures AfterSaveStarted(s).isSaving
    ensures var t := AfterSaveFinished(AfterSaveStarted(s), saved);
      && !t.isSaving
      && (s.fileHandle.None? && saved.Some? ==> t.fileHandle == saved && t.fileName == saved.value.name)
      && (s.fileHandle.Some? || saved.None? ==> t == s.(isSaving := false))
  {
  }

  /** A save-as adopts whatever handle comes back and its name; a cancelled
      one changes nothing. */
  lemma SaveAsAdoptsHandle(s: AppData, saved: Option<FileHandle>)
    ensures saved.None? ==> AfterSaveAsFinished(s, saved) == s
    ensures saved.Some? ==>
      AfterSaveAsFinished(s, saved) == s.(fileHandle := saved, fileName := saved.value.name)
    ensures saved.Some? ==> AfterSaveAsFinished(s, saved).fileHandle == saved
  {
  }

  /** An editor change stores the content and history, marks the session
      modified, and schedules an autosave exactly when the note has a file
      or one was already scheduled. */
  lemma EditorChangeRecords(s: AppData, c: seq<CustomElement>, h: History)
    ensures var t := AfterEditorChange(s, c, h);
      && t.content == c && t.history == h
      && t.currentSession.modified
      && t.currentSession.openTimestamp == s.currentSession.openTimestamp
      && t.currentSession.closeTimestamp == s.currentSession.closeTimestamp
      && (t.autosavePending <==> s.autosavePending || s.fileHandle.Some?)
      && t.fileHandle == s.fileHandle && t.fileName == s.fileName && t.sessions == s.sessions
  {
  }

  /** Opening a file replaces the note with the file's content, history and
      sessions (each falling back to empty when missing) and starts a fresh,
      unmodified session; a cancelled open changes nothing. */
  lemma OpenLoadsFile(s: AppData, r: OpenResult, now: int)
    ensures AfterOpen(s, None, now) == s
    ensures var t := AfterOpen(s, Some(r), now);
      && t.fileHandle == Some(r.handle) && t.fileName == r.handle.name
      && t.isSaving == s.isSaving && t.autosavePending == s.autosavePending
    ensures r.data.ParsedNote? ==> var t := AfterOpen(s, Some(r), now);
      && (r.data.content.Some? ==> t.content == r.data.content.value)
      && (r.data.content.None? ==> t.content == INITIAL_CONTENT)
      && (r.data.history.Some? && r.data.history.value.UndoRedo? ==> t.history == r.data.history.value)
      && (r.data.history.None? || r.data.history == Some(NullHistory) ==> t.history == UndoRedo([], []))
      && (r.data.sessions.Some? ==> t.sessions == r.data.sessions.value)
      && (r.data.sessions.None? ==> t.sessions == [])
      && t.currentSession.openTimestamp == now && t.currentSession.closeTimestamp.None?
      && t.currentSession.durationSeconds == 0.0 && !t.currentSession.modified
  {
  }

  /** Opening a file that holds `null` renames the note after the file but
      keeps the previous note's content, history and sessions, so the next
      save writes the previous note into that file. */
  lemma OpenOfNullFile(s: AppData, h: FileHandle, now: int, saveTime: int)
    ensures var t := AfterOpen(s, Some(OpenResult(h, NullNote)), now);
      && t == s.(fileHandle := Some(h), fileName := h.name)
      && t.fileHandle == Some(h)
      && Snapshot(t, saveTime) == Snapshot(s, saveTime)
  {
  }

  /** Reopening a saved file gives back its content and its sessions with
      the session that was being saved now closed at the end; a history that
      was still null comes back empty. */
  lemma ReopenSavedFile(s: AppData, h: FileHandle, saveTime: int, now: int, t: AppData)
    requires t == AfterOpen(AfterNew(s, saveTime), Some(OpenResult(h, Parsed(Snapshot(s, saveTime)))), now)
    ensures t.content == s.content
    ensures t.sessions == s.sessions + [s.currentSession.(closeTimestamp := Some(saveTime))]
    ensures t.history == if s.history.NullHistory? then UndoRedo([], []) else s.history
    ensures t.fileHandle == Some(h) && t.currentSession == FreshSession(now)
  {
  }

  /** A new note has no file, is called Untitled, holds the empty note, an
      empty history and no sessions, and starts a fresh unmodified session:
      what the application starts with, except that the history is empty
      rather than null. */
  lemma NewResets(s: AppData, now: int)
    ensures var t := AfterNew(s, now);
      && t.fileHandle.None? && t.fileName == "Untitled"
      && t.content == INITIAL_CONTENT && t.history == UndoRedo([], []) && t.sessions == []
      && !t.currentSession.modified && t.currentSession.closeTimestamp.None?
      && t.(history := NullHistory, isSaving := false, autosavePending := false) == Initial(now)
  {
  }

  /** Every action keeps the current session open. */
  lemma CurrentSessionStaysOpen(s: AppData, saved: Option<FileHandle>, c: seq<CustomElement>,
                                h: History, r: Option<OpenResult>, now: int)
    requires CurrentSessionOpen(s)
    ensures CurrentSessionOpen(Initial(now))
    ensures CurrentSessionOpen(AfterSaveStarted(s)) && CurrentSessionOpen(AfterAutosaveFired(s))
    ensures CurrentSessionOpen(AfterSaveFinished(s, saved)) && CurrentSessionOpen(AfterSaveAsFinished(s, saved))
    ensures CurrentSessionOpen(AfterEditorChange(s, c, h))
    ensures CurrentSessionOpen(AfterOpen(s, r, now)) && CurrentSessionOpen(AfterNew(s, now))
  {
  }

  /** An autosave is only ever scheduled for a note with a file, and saving,
      saving as, editing and opening keep it that way. */
  lemma AutosaveNeedsFile(s: AppData, saved: Option<FileHandle>, c: seq<CustomElement>,
                          h: History, r: Option<OpenResult>, now: int)
    requires AutosaveHasFile(s)
    ensures AutosaveHasFile(Initial(now))
    ensures AutosaveHasFile(AfterSaveStarted(s)) && AutosaveHasFile(AfterAutosaveFired(s))
    ensures AutosaveHasFile(AfterSaveFinished(s, saved)) && AutosaveHasFile(AfterSaveAsFinished(s, saved))
    ensures AutosaveHasFile(AfterEditorChange(s, c, h))
    ensures AutosaveHasFile(AfterOpen(s, r, now))
  {
  }

  /** Creating a new note does not cancel an autosave scheduled for the
      previous file: when it fires, the save has no file to write to and
      asks for one. */
  lemma NewKeepsScheduledAutosave(s: AppData, c: seq<CustomElement>, h: History, now: int, saveTime: int)
    requires s.fileHandle.Some?
    ensures var t := AfterNew(AfterEditorChange(s, c, h), now);
      && t.autosavePending && !AutosaveHasFile(t)
      && Snapshot(t, saveTime).content == INITIAL_CONTENT
      && Snapshot(t, saveTime).sessions == [FreshSession(now).(closeTimestamp := Some(saveTime))]
  {
  }
}
