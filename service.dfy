/** The decision logic of the HTTP handlers of
    src/internal/service/service.go:78-346: which status and body each
    handler sends for each outcome of parsing the request and of the
    repository calls it makes. Path and query parameters arrive already
    parsed: an integer parameter is the outcome of strconv.Atoi, a body
    the outcome of JSON decoding, a filter the encoded query string. */
module Service {
  import opened Wrappers
  import opened Model
  import opened Paging
  import opened Filter
  import opened Table
  import opened Base

  /** The response body, before JSON encoding. */
  datatype Body =
    | Empty
    | Songs(songs: seq<Song>)
    | OneSong(song: Song)
    | LyricsList(texts: seq<string>)
    | LyricsText(text: string)
    | Message(text: string)

  /** What the client receives: a status and a body, or nothing at all
      when the handler panicked (net/http recovers the panic and drops
      the connection). */
  datatype Reply = Reply(status: nat, body: Body) | Aborted

  /** The outcome of decoding a JSON request body into a Song. */
  datatype Decoded = Decoded(song: Song) | Undecodable(reason: string)

  const InvalidPage := Reply(400, Message("Invalid page number"))
  const InvalidSize := Reply(400, Message("Invalid page size"))
  const LibraryFailed := Reply(500, Message("Failed to fetch library data"))
  const SongNotFound := Reply(404, Message("Song not found"))
  const DeleteFailed := Reply(500, Message("Failed to delete song"))
  const InvalidPayload := Reply(400, Message("Invalid request payload"))
  const UpdateFailed := Reply(500, Message("Failed to update song"))
  const SearchFailed := Reply(500, Message("Something went wrong"))
  const Created := Reply(201, Empty)

  /** WriteHeader: the first status written is the one sent; a later call
      is superfluous and ignored. */
  function WriteHeader(sent: Option<Reply>, r: Reply): Option<Reply>
  {
    if sent.Some? then sent else Some(r)
  }

  /** The table after Add when neither repository call fails: the song is
      inserted only when its key is absent. */
  function AddIfAbsent(rows: seq<Song>, nextId: nat, s: Song): (seq<Song>, nat)
  {
    if Exists(rows, s.groupName, s.song) then (rows, nextId)
    else (Inserted(rows, nextId, s), nextId + 1)
  }

  /** Add-if-absent leaves the key present, and adding the same key again
      changes nothing. */
  lemma AddIfAbsentIdempotent(rows: seq<Song>, nextId: nat, s: Song)
    ensures var (rows1, next1) := AddIfAbsent(rows, nextId, s);
      Exists(rows1, s.groupName, s.song) && AddIfAbsent(rows1, next1, s) == (rows1, next1)
  {
    if !Exists(rows, s.groupName, s.song) {
      assert HasKey(Inserted(rows, nextId, s)[|rows|], s.groupName, s.song);
    }
  }

  /** Add-if-absent never creates a second row with a key already there:
      if no key occurs twice before, none does after. */
  lemma AddIfAbsentKeepsKeysUnique(rows: seq<Song>, nextId: nat, s: Song)
    requires forall i, j :: 0 <= i < j < |rows| ==> !HasKey(rows[j], rows[i].groupName, rows[i].song)
    ensures var rows1 := AddIfAbsent(rows, nextId, s).0;
      forall i, j :: 0 <= i < j < |rows1| ==> !HasKey(rows1[j], rows1[i].groupName, rows1[i].song)
  {
    var rows1 := AddIfAbsent(rows, nextId, s).0;
    if !Exists(rows, s.groupName, s.song) {
      forall i, j | 0 <= i < j < |rows1| ensures !HasKey(rows1[j], rows1[i].groupName, rows1[i].song) {
        if j == |rows| {
          assert !HasKey(rows[i], s.groupName, s.song);
        }
      }
    }
  }

  class Service {
    var repo: Repository

    ghost predicate Valid()
      reads this, repo
    {
      repo.Valid()
    }

    constructor (r: Repository)
      requires r.Valid()
      ensures Valid() && repo == r
    {
      repo := r;
    }

    /** LibraryWithPagination (service.go:78-102). */
    method LibraryWithPagination(page: Option<Int64>, size: Option<Int64>, dbFails: bool) returns (resp: Reply)
      ensures page.None? ==> resp == InvalidPage
      ensures page.Some? && size.None? ==> resp == InvalidSize
      ensures page.Some? && size.Some? && dbFails ==> resp == LibraryFailed
      ensures page.Some? && size.Some? && !dbFails ==>
        && resp.Reply? && resp.status == 200 && resp.body.Songs?
        && IsWindow(resp.body.songs, repo.rows, Offset(page.value, size.value), size.value)
    {
      if page.None? {
        return InvalidPage;
      }
      if size.None? {
        return InvalidSize;
      }
      var lib := repo.GetLibraryWithPagination(page.value, size.value, dbFails);
      if !lib.Ok? {
        return LibraryFailed;
      }
      return Reply(200, Songs(lib.value));
    }

    /** FilterWithPagination (service.go:114-139). */
    method FilterWithPagination(page: Option<Int64>, size: Option<Int64>, filter: string, dbFails: bool)
      returns (resp: Reply)
      ensures page.None? ==> resp == InvalidPage
      ensures page.Some? && size.None? ==> resp == InvalidSize
      ensures page.Some? && size.Some? && !WellFormed(filter) ==> resp == Aborted
      ensures page.Some? && size.Some? && WellFormed(filter) && (dbFails || !Runnable(Clauses(filter))) ==>
        resp == SongNotFound
      ensures page.Some? && size.Some? && WellFormed(filter) && !dbFails && Runnable(Clauses(filter)) ==>
        && resp.Reply? && resp.status == 200 && resp.body.Songs?
        && IsWindow(resp.body.songs, Where(repo.rows, Clauses(filter)), Offset(page.value, size.value), size.value)
    {
      if page.None? {
        return InvalidPage;
      }
      if size.None? {
        return InvalidSize;
      }
      var target := repo.FindWithFilterAndPagination(filter, page.value, size.value, dbFails);
      match target
      case Panicked => return Aborted;
      case Err(_) => return SongNotFound;
      case Ok(songs) => return Reply(200, Songs(songs));
    }

    /** LyricsWithPagination (service.go:154-179). */
    method LyricsWithPagination(group: string, song: string, page: Option<Int64>, size: Option<Int64>, dbFails: bool)
      returns (resp: Reply)
      ensures page.None? ==> resp == InvalidPage
      ensures page.Some? && size.None? ==> resp == InvalidSize
      ensures page.Some? && size.Some? && dbFails ==> resp == SongNotFound
      ensures page.Some? && size.Some? && !dbFails ==>
        var w := Window(Matching(repo.rows, group, song), Offset(page.value, size.value), size.value);
        && resp.Reply? && resp.status == 200 && resp.body.LyricsList?
        && |resp.body.texts| == |w|
        && forall k :: 0 <= k < |w| ==> resp.body.texts[k] == w[k].lyrics
    {
      if page.None? {
        return InvalidPage;
      }
      if size.None? {
        return InvalidSize;
      }
      var lyrics := repo.GetLyricsWithPagination(group, song, page.value, size.value, dbFails);
      if !lyrics.Ok? {
        return SongNotFound;
      }
      return Reply(200, LyricsList(lyrics.value));
    }

    /** Filter (service.go:190-202): the first matching song, or 404. */
    method Filter(filter: string, dbFails: bool) returns (resp: Reply)
      ensures !WellFormed(filter) ==> resp == Aborted
      ensures filter == "" ==> resp == Aborted
      ensures WellFormed(filter) && (dbFails || !Runnable(Clauses(filter))) ==> resp == SongNotFound
      ensures WellFormed(filter) && !dbFails && Runnable(Clauses(filter)) ==>
        if exists i :: 0 <= i < |repo.rows| && Satisfies(repo.rows[i], Clauses(filter))
        then resp.Reply? && resp.status == 200 && resp.body.OneSong?
             && resp.body.song in repo.rows && Satisfies(resp.body.song, Clauses(filter))
             && (Ascending(repo.rows) ==>
                   forall i :: 0 <= i < |repo.rows| && Satisfies(repo.rows[i], Clauses(filter)) ==>
                     resp.body.song.id <= repo.rows[i].id)
        else resp == SongNotFound
    {
      EmptyFilterIsMalformed();
      var target := repo.FindWithFilter(filter, dbFails);
      match target
      case Panicked => return Aborted;
      case Err(_) => return SongNotFound;
      case Ok(s) => return Reply(200, OneSong(s));
    }

    /** Library (service.go:212-223). */
    method Library(dbFails: bool) returns (resp: Reply)
      ensures dbFails ==> resp == LibraryFailed
      ensures !dbFails ==> resp == Reply(200, Songs(repo.rows))
    {
      var lib := repo.GetLibrary(dbFails);
      if !lib.Ok? {
        return LibraryFailed;
      }
      return Reply(200, Songs(lib.value));
    }

    /** Lyrics (service.go:235-248). */
    method Lyrics(group: string, song: string, dbFails: bool) returns (resp: Reply)
      ensures dbFails || !Exists(repo.rows, group, song) ==> resp == SongNotFound
      ensures !dbFails && Exists(repo.rows, group, song) ==>
        && resp.Reply? && resp.status == 200 && resp.body.LyricsText?
        && exists i :: && 0 <= i < |repo.rows| && HasKey(repo.rows[i], group, song) && resp.body.text == repo.rows[i].lyrics
                       && (Ascending(repo.rows) ==>
                             forall j :: 0 <= j < |repo.rows| && HasKey(repo.rows[j], group, song) ==>
                               repo.rows[i].id <= repo.rows[j].id)
    {
      var text := repo.GetLyrics(group, song, dbFails);
      if !text.Ok? {
        return SongNotFound;
      }
      return Reply(200, LyricsText(text.value));
    }

    /** Delete (service.go:259-271). */
    method Delete(group: string, song: string, dbFails: bool) returns (resp: Reply)
      requires Valid()
      modifies repo
      ensures Valid() && repo.nextId == old(repo.nextId)
      ensures dbFails ==> resp == DeleteFailed && repo.rows == old(repo.rows)
      ensures !dbFails ==> resp == Reply(204, Empty) && repo.rows == Removed(old(repo.rows), group, song)
      ensures resp.status == 204 ==> !Exists(repo.rows, group, song)
    {
      var err := repo.DeleteSong(group, song, dbFails);
      if !err.Ok? {
        return DeleteFailed;
      }
      RemovedDropsKey(old(repo.rows), group, song);
      return Reply(204, Empty);
    }

    /** Update (service.go:286-305): the status stays the default 200. */
    method Update(group: string, song: string, body: Decoded, dbFails: bool) returns (resp: Reply)
      requires Valid()
      modifies repo
      ensures Valid() && repo.nextId == old(repo.nextId)
      ensures body.Undecodable? ==> resp == InvalidPayload && repo.rows == old(repo.rows)
      ensures body.Decoded? && dbFails ==> resp == UpdateFailed && repo.rows == old(repo.rows)
      ensures body.Decoded? && !dbFails ==>
        resp == Reply(200, Empty) && repo.rows == Updated(old(repo.rows), group, song, body.song)
    {
      if body.Undecodable? {
        return InvalidPayload;
      }
      var err := repo.UpdateSong(group, song, body.song, dbFails);
      if !err.Ok? {
        return UpdateFailed;
      }
      return Reply(200, Empty);
    }

    /** Add (service.go:318-346): look the key up, insert only when it is
        absent, and write 201 whatever happened; after a failed insert the
        500 written first is the status that is sent. */
    method Add(body: Decoded, findFails: bool, createError: Option<string>) returns (resp: Reply)
      requires Valid()
      modifies repo
      ensures Valid()
      ensures body.Undecodable? ==>
        resp == Reply(400, Message(body.reason)) && repo.rows == old(repo.rows) && repo.nextId == old(repo.nextId)
      ensures body.Decoded? && findFails ==>
        resp == SearchFailed && repo.rows == old(repo.rows) && repo.nextId == old(repo.nextId)
      ensures body.Decoded? && !findFails && Exists(old(repo.rows), body.song.groupName, body.song.song) ==>
        resp == Created && repo.rows == old(repo.rows) && repo.nextId == old(repo.nextId)
      ensures body.Decoded? && !findFails && !Exists(old(repo.rows), body.song.groupName, body.song.song) ==>
        match createError
        case Some(cause) =>
          && resp == Reply(500, Message(AddErrorText(body.song, cause)))
          && repo.rows == old(repo.rows) && repo.nextId == old(repo.nextId)
        case None =>
          && resp == Created
          && repo.rows == Inserted(old(repo.rows), old(repo.nextId), body.song)
          && repo.nextId == old(repo.nextId) + 1
      ensures body.Decoded? && !findFails && createError.None? ==>
        (repo.rows, repo.nextId) == AddIfAbsent(old(repo.rows), old(repo.nextId), body.song)
      ensures resp == Created ==> body.Decoded? && Exists(repo.rows, body.song.groupName, body.song.song)
    {
      if body.Undecodable? {
        return Reply(400, Message(body.reason));
      }
      var newSong := body.song;
      var status := repo.Find(newSong.groupName, newSong.song, findFails);
      if !status.Ok? {
        return SearchFailed;
      }
      var sent: Option<Reply> := None;
      if !status.value {
        var err := repo.AddSong(newSong, createError);
        if err.Some? {
          sent := WriteHeader(sent, Reply(500, Message(err.value)));
        }
      }
      sent := WriteHeader(sent, Created);
      resp := sent.value;
      if resp == Created && !status.value {
        InsertKeepsOrder(old(repo.rows), old(repo.nextId), newSong);
      }
    }
  }
}
