/**
 * The saved-session list (App.tsx `saveCurrentSession`, `handleDeleteSession`)
 * and the accent-theme cycle (`toggleTheme`).
 *
 * A save upserts the current session's record by id: it takes the place of the
 * first record with that id, or goes to the front of the list when there is
 * none. A delete keeps every record whose id differs.
 */
module SessionHistory {
  import opened Types

  /** Characters of the first message kept in a title. */
  const TitleLength := 30
  const Ellipsis := "..."
  const UntitledTitle := "Untitled Project"

  /** The sidebar title of a session with these messages. */
  function Title(messages: seq<Message>): (r: string)
    ensures messages == [] ==> r == UntitledTitle
    ensures messages != [] && |messages[0].content| <= TitleLength ==> r == messages[0].content
    ensures messages != [] && |messages[0].content| > TitleLength ==>
      |r| == TitleLength + |Ellipsis| && r == messages[0].content[..TitleLength] + Ellipsis
  {
    if messages == [] then UntitledTitle
    else
      var c := messages[0].content;
      var head := if |c| <= TitleLength then c else c[..TitleLength];
      head + (if |c| > TitleLength then Ellipsis else "")
  }

  /** A title never exceeds 33 characters and starts like the first message. */
  lemma TitleBound(messages: seq<Message>)
    requires messages != []
    ensures var t := Title(messages); var c := messages[0].content;
      |t| <= TitleLength + |Ellipsis| &&
      (if |c| <= TitleLength then t == c else t[..TitleLength] == c[..TitleLength])
  {
  }

  /** The record a save writes. */
  function Record(id: string, messages: seq<Message>, files: ProjectFiles, preview: string, now: int): (r: SavedSession)
    ensures r.id == id && r.messages == messages && r.projectFiles == files && r.previewHtml == preview
    ensures r.title == Title(messages) && r.lastModified == now
  {
    SavedSession(id, Title(messages), messages, files, preview, now)
  }

  /** The ids present in the list. */
  function Ids(sessions: seq<SavedSession>): set<string> {
    set i | 0 <= i < |sessions| :: sessions[i].id
  }

  /** No id occurs twice. */
  predicate UniqueIds(sessions: seq<SavedSession>) {
    forall i, j :: 0 <= i < j < |sessions| ==> sessions[i].id != sessions[j].id
  }

  /** `findIndex(s => s.id === id)`: the first position holding `id`, or -1. */
  function IndexOfId(sessions: seq<SavedSession>, id: string): (r: int)
    ensures -1 <= r < |sessions|
    ensures r >= 0 ==> sessions[r].id == id
  {
    if sessions == [] then -1
    else if sessions[0].id == id then 0
    else
      var k := IndexOfId(sessions[1..], id);
      if k < 0 then -1 else k + 1
  }

  /** The index found is the first one, and -1 means the id is absent. */
  lemma {:induction false} IndexOfIdFirst(sessions: seq<SavedSession>, id: string)
    ensures forall j :: (0 <= j < |sessions| && (IndexOfId(sessions, id) < 0 || j < IndexOfId(sessions, id)))
                        ==> sessions[j].id != id
  {
    if sessions != [] && sessions[0].id != id {
      IndexOfIdFirst(sessions[1..], id);
      forall j | 0 < j < |sessions|
        ensures sessions[j].id == sessions[1..][j - 1].id
      {
      }
    }
  }

  /** The search succeeds exactly when the id is present. */
  lemma IndexOfIdIff(sessions: seq<SavedSession>, id: string)
    ensures IndexOfId(sessions, id) >= 0 <==> id in Ids(sessions)
  {
    IndexOfIdFirst(sessions, id);
    var r := IndexOfId(sessions, id);
    if r >= 0 {
      assert sessions[r].id in Ids(sessions);
    }
  }

  /** The record a lookup by id finds: the first one with that id. */
  function Lookup(sessions: seq<SavedSession>, id: string): (r: Option<SavedSession>)
    ensures r.Some? ==> r.value in sessions && r.value.id == id
  {
    var i := IndexOfId(sessions, id);
    if i >= 0 then Some(sessions[i]) else None
  }

  /** The list after saving `record`. */
  function Upsert(sessions: seq<SavedSession>, record: SavedSession): seq<SavedSession> {
    var i := IndexOfId(sessions, record.id);
    if i >= 0 then sessions[i := record] else [record] + sessions
  }

  /** The list without the records whose id is `id`, in the same order. */
  function Delete(sessions: seq<SavedSession>, id: string): seq<SavedSession> {
    if sessions == [] then []
    else (if sessions[0].id == id then [] else [sessions[0]]) + Delete(sessions[1..], id)
  }

  /** A save grows the list by one exactly when the id was not there yet. */
  lemma UpsertLength(sessions: seq<SavedSession>, record: SavedSession)
    ensures |Upsert(sessions, record)| == |sessions| + (if record.id in Ids(sessions) then 0 else 1)
  {
    IndexOfIdIff(sessions, record.id);
  }

  /** After a save the ids are the old ones plus the saved one. */
  lemma UpsertIds(sessions: seq<SavedSession>, record: SavedSession)
    ensures Ids(Upsert(sessions, record)) == Ids(sessions) + {record.id}
  {
    IndexOfIdIff(sessions, record.id);
    var r := Upsert(sessions, record);
    var i := IndexOfId(sessions, record.id);
    if i >= 0 {
      forall x | x in Ids(sessions)
        ensures x in Ids(r)
      {
        var j :| 0 <= j < |sessions| && sessions[j].id == x;
        assert r[j].id == x;
      }
      assert r[i].id == record.id;
    } else {
      forall x | x in Ids(sessions)
        ensures x in Ids(r)
      {
        var j :| 0 <= j < |sessions| && sessions[j].id == x;
        assert r[j + 1].id == x;
      }
      assert r[0].id == record.id;
    }
  }

  /** A save keeps ids unique. */
  lemma UpsertUnique(sessions: seq<SavedSession>, record: SavedSession)
    requires UniqueIds(sessions)
    ensures UniqueIds(Upsert(sessions, record))
  {
    IndexOfIdIff(sessions, record.id);
    var r := Upsert(sessions, record);
    if IndexOfId(sessions, record.id) < 0 {
      forall i, j | 0 <= i < j < |r|
        ensures r[i].id != r[j].id
      {
        if i == 0 {
          assert sessions[j - 1].id in Ids(sessions);
        } else {
          assert r[i] == sessions[i - 1] && r[j] == sessions[j - 1];
        }
      }
    }
  }

  /** Looking the saved id up afterwards finds the saved record. */
  lemma UpsertLookup(sessions: seq<SavedSession>, record: SavedSession)
    ensures Lookup(Upsert(sessions, record), record.id) == Some(record)
  {
    var i := IndexOfId(sessions, record.id);
    var r := Upsert(sessions, record);
    if i >= 0 {
      IndexOfIdFirst(sessions, record.id);
      IndexOfIdFirst(r, record.id);
      assert r[i].id == record.id;
      assert IndexOfId(r, record.id) == i;
    }
  }

  /** Deleting keeps exactly the records with another id. */
  lemma {:induction false} DeleteMembers(sessions: seq<SavedSession>, id: string)
    ensures forall x :: x in Delete(sessions, id) <==> x in sessions && x.id != id
  {
    if sessions != [] {
      DeleteMembers(sessions[1..], id);
      assert sessions == [sessions[0]] + sessions[1..];
    }
  }

  /** The ids left after a delete are the old ones without `id`. */
  lemma DeleteIds(sessions: seq<SavedSession>, id: string)
    ensures Ids(Delete(sessions, id)) == Ids(sessions) - {id}
  {
    var r := Delete(sessions, id);
    DeleteMembers(sessions, id);
    forall x | x in Ids(r)
      ensures x in Ids(sessions) && x != id
    {
      var j :| 0 <= j < |r| && r[j].id == x;
      assert r[j] in r;
      var k :| 0 <= k < |sessions| && sessions[k] == r[j];
    }
    forall x | x in Ids(sessions) && x != id
      ensures x in Ids(r)
    {
      var k :| 0 <= k < |sessions| && sessions[k].id == x;
      assert sessions[k] in sessions;
      var j :| 0 <= j < |r| && r[j] == sessions[k];
    }
  }

  /** Deleting an id that is not there changes nothing. */
  lemma {:induction false} DeleteAbsent(sessions: seq<SavedSession>, id: string)
    requires id !in Ids(sessions)
    ensures Delete(sessions, id) == sessions
  {
    if sessions != [] {
      assert sessions[0].id in Ids(sessions);
      assert Ids(sessions[1..]) <= Ids(sessions) by {
        forall x | x in Ids(sessions[1..])
          ensures x in Ids(sessions)
        {
          var j :| 0 <= j < |sessions[1..]| && sessions[1..][j].id == x;
          assert sessions[j + 1].id == x;
        }
      }
      DeleteAbsent(sessions[1..], id);
      assert sessions == [sessions[0]] + sessions[1..];
    }
  }

  /** Replacing a record by one with the same id does not change what a delete of that id leaves. */
  lemma {:induction false} DeleteUpdate(sessions: seq<SavedSession>, i: int, record: SavedSession)
    requires 0 <= i < |sessions| && sessions[i].id == record.id
    ensures Delete(sessions[i := record], record.id) == Delete(sessions, record.id)
  {
    var r := sessions[i := record];
    if i > 0 {
      assert r[1..] == sessions[1..][i - 1 := record];
      DeleteUpdate(sessions[1..], i - 1, record);
    } else {
      assert r[1..] == sessions[1..];
    }
  }

  /** A save touches no record with another id: they stay, in order. */
  lemma UpsertOthers(sessions: seq<SavedSession>, record: SavedSession)
    ensures Delete(Upsert(sessions, record), record.id) == Delete(sessions, record.id)
  {
    var i := IndexOfId(sessions, record.id);
    if i >= 0 {
      DeleteUpdate(sessions, i, record);
    } else {
      assert ([record] + sessions)[1..] == sessions;
    }
  }

  /** Saving the same record twice is saving it once. */
  lemma UpsertIdempotent(sessions: seq<SavedSession>, record: SavedSession)
    ensures Upsert(Upsert(sessions, record), record) == Upsert(sessions, record)
  {
    var i := IndexOfId(sessions, record.id);
    var r := Upsert(sessions, record);
    IndexOfIdFirst(sessions, record.id);
    IndexOfIdFirst(r, record.id);
    if i >= 0 {
      assert r[i].id == record.id;
      assert IndexOfId(r, record.id) == i;
    } else {
      assert IndexOfId(r, record.id) == 0;
    }
  }

  /** Deleting keeps ids unique. */
  lemma {:induction false} DeleteUnique(sessions: seq<SavedSession>, id: string)
    requires UniqueIds(sessions)
    ensures UniqueIds(Delete(sessions, id))
  {
    if sessions != [] {
      var rest := sessions[1..];
      assert UniqueIds(rest) by {
        forall i, j | 0 <= i < j < |rest|
          ensures rest[i].id != rest[j].id
        {
          assert rest[i] == sessions[i + 1] && rest[j] == sessions[j + 1];
        }
      }
      DeleteUnique(rest, id);
      DeleteIds(rest, id);
      var tail := Delete(rest, id);
      if sessions[0].id != id {
        assert sessions[0].id !in Ids(rest) by {
          forall j | 0 <= j < |rest|
            ensures rest[j].id != sessions[0].id
          {
            assert rest[j] == sessions[j + 1];
          }
        }
        var r := [sessions[0]] + tail;
        forall i, j | 0 <= i < j < |r|
          ensures r[i].id != r[j].id
        {
          if i == 0 {
            assert r[j] == tail[j - 1];
            assert tail[j - 1].id in Ids(tail);
          } else {
            assert r[i] == tail[i - 1] && r[j] == tail[j - 1];
          }
        }
      } else {
        assert Delete(sessions, id) == tail;
      }
    }
  }

  // ---------------------------------------------------------------------------
  // Accent themes

  datatype Theme = Theme(name: string, rgb: string)

  const Themes: seq<Theme> := [
    Theme("Neon Green", "57 255 20"),
    Theme("Hot Pink", "255 20 147"),
    Theme("Electric Blue", "0 255 255"),
    Theme("Plasma Orange", "255 165 0")
  ]

  /** `toggleTheme`: the next theme, wrapping around after the last. */
  function NextTheme(i: nat): (r: nat)
    ensures r < |Themes|
    ensures i + 1 < |Themes| ==> r == i + 1
  {
    (i + 1) % |Themes|
  }

  /** From any theme, toggling walks through all the others and is back after four steps. */
  lemma ThemeCycle(i: nat)
    requires i < |Themes|
    ensures NextTheme(i) != i
    ensures NextTheme(NextTheme(i)) != i && NextTheme(NextTheme(NextTheme(i))) != i
    ensures NextTheme(NextTheme(NextTheme(NextTheme(i)))) == i
  {
  }
}
