/** The repository of src/internal/base/db.go:90-202 over an in-memory
    songs table. Every database round trip can fail at the driver level;
    whether it does is an input of the call (`dbFails`, or the driver's
    error text `createError` for the insert). */
module Base {
  import opened Wrappers
  import opened Model
  import opened Paging
  import opened Filter
  import opened Table

  /** The kinds of error the callers act on: gorm's record-not-found, a
      statement the database rejects, and a failed round trip. */
  datatype DbError = RecordNotFound | QueryFailed | ConnectionFailed

  /** A repository call returns a value, reports an error, or panics
      (encode indexing past the pieces of a malformed filter). */
  datatype Result<T> = Ok(value: T) | Err(error: DbError) | Panicked

  /** Clauses on text columns with quote-free values: the WHERE text
      encode writes for them means exactly their conjunction. Any other
      text is treated as a statement the database rejects. */
  predicate Runnable(cs: seq<Clause>)
  {
    Known(cs) && forall i :: 0 <= i < |cs| ==> '\'' !in cs[i].value
  }

  /** The conditions evaluated for a runnable filter are the ones its
      WHERE text spells out. */
  lemma RunnableTextMeansClauses(filter: string)
    requires WellFormed(filter) && Runnable(Clauses(filter))
    ensures ParseWhere(EncodedText(filter)) == Some(Clauses(filter))
  {
    var cs := Clauses(filter);
    forall i | 0 <= i < |cs| ensures ' ' !in cs[i].column {
      TextColumnHasNoSpace(cs[i].column);
    }
    assert Plain(cs);
    EncodedTextReadsBack(filter);
  }

  lemma TextColumnHasNoSpace(column: string)
    requires IsTextColumn(column)
    ensures ' ' !in column
  {
    if column == "group_name" {
      assert forall k :: 0 <= k < |column| ==> column[k] != ' ';
    }
  }

  /** The table, the next id and the error AddSong reports. */
  datatype AddOutcome = AddOutcome(rows: seq<Song>, nextId: nat, err: Option<string>)

  /** The message AddSong wraps a failed insert in. */
  function AddErrorText(s: Song, cause: string): string
  {
    "Failed to add group: " + s.groupName + ", song: " + s.song + ". Error:" + cause
  }

  /** AddSong as written (db.go:154-163): it inspects r.base.Error, the
      error of the long-lived handle, which Create never sets, so a failed
      insert is reported as success. */
  function AddSongAsWritten(rows: seq<Song>, nextId: nat, s: Song, createError: Option<string>): AddOutcome
  {
    if createError.Some? then AddOutcome(rows, nextId, None)
    else AddOutcome(Inserted(rows, nextId, s), nextId + 1, None)
  }

  /** As written, an insert that fails leaves the song out of the table
      and still reports no error. */
  lemma AsWrittenHidesFailedInsert(rows: seq<Song>, nextId: nat, s: Song, cause: string)
    requires !Exists(rows, s.groupName, s.song)
    ensures AddSongAsWritten(rows, nextId, s, Some(cause)).err == None
    ensures !Exists(AddSongAsWritten(rows, nextId, s, Some(cause)).rows, s.groupName, s.song)
  {
  }

  /** AddSong checking the error of its own Create call. */
  function AddSongOutcome(rows: seq<Song>, nextId: nat, s: Song, createError: Option<string>): AddOutcome
  {
    match createError
    case Some(cause) => AddOutcome(rows, nextId, Some(AddErrorText(s, cause)))
    case None => AddOutcome(Inserted(rows, nextId, s), nextId + 1, None)
  }

  /** An insert reports an error exactly when it fails; a failed insert
      changes nothing, a successful one adds one row with a fresh id,
      after all others, holding the song's key. */
  lemma AddSongReportsFailure(rows: seq<Song>, nextId: nat, s: Song, createError: Option<string>)
    requires Ascending(rows) && forall i :: 0 <= i < |rows| ==> rows[i].id < nextId
    ensures var o := AddSongOutcome(rows, nextId, s, createError);
      && (o.err.None? <==> createError.None?)
      && (o.err.Some? ==> o.rows == rows && o.nextId == nextId)
      && (o.err.None? ==>
            && |o.rows| == |rows| + 1 && o.rows[..|rows|] == rows
            && Exists(o.rows, s.groupName, s.song)
            && Ascending(o.rows)
            && forall i :: 0 <= i < |o.rows| ==> o.rows[i].id < o.nextId)
  {
    if createError.None? {
      InsertKeepsOrder(rows, nextId, s);
      var r := Inserted(rows, nextId, s);
      assert r[..|rows|] == rows;
    }
  }

  /** The loop of GetLyricsWithPagination (db.go:146-149): the lyrics of
      the songs, one per song, in the same order. */
  method CollectLyrics(songs: seq<Song>) returns (lyrics: seq<string>)
    ensures |lyrics| == |songs|
    ensures forall k :: 0 <= k < |songs| ==> lyrics[k] == songs[k].lyrics
  {
    lyrics := [];
    var i := 0;
    while i < |songs|
      invariant 0 <= i <= |songs|
      invariant |lyrics| == i
      invariant forall k :: 0 <= k < i ==> lyrics[k] == songs[k].lyrics
    {
      lyrics := lyrics + [songs[i].lyrics];
      i := i + 1;
    }
  }

  class Repository {
    /** The songs table, in primary-key order. */
    var rows: seq<Song>
    /** The id the database's sequence hands out next. */
    var nextId: nat

    ghost predicate Valid()
      reads this
    {
      Ascending(rows) && forall i :: 0 <= i < |rows| ==> rows[i].id < nextId
    }

    /** A freshly migrated, empty table. */
    constructor ()
      ensures Valid() && rows == [] && nextId == 1
    {
      rows := [];
      nextId := 1;
    }

    /** Find (db.go:90-102): whether some row has the key; gorm's
        record-not-found becomes false, any other error is passed on. */
    function Find(group: string, song: string, dbFails: bool): (r: Result<bool>)
      reads this
      ensures dbFails ==> r == Err(ConnectionFailed)
      ensures !dbFails ==> r == Ok(Exists(rows, group, song))
    {
      if dbFails then Err(ConnectionFailed)
      else
        KeyClausesMeanKey(group, song);
        match First(rows, KeyClauses(group, song))
        case None =>
          assert !Exists(rows, group, song);
          Ok(false)
        case Some(_) => Ok(true)
    }

    /** FindWithFilter (db.go:104-113): the first row, by id, that the
        encoded filter selects. */
    function FindWithFilter(filter: string, dbFails: bool): (r: Result<Song>)
      reads this
      ensures r == Panicked <==> !WellFormed(filter)
      ensures r.Ok? ==> && WellFormed(filter) && !dbFails && Runnable(Clauses(filter))
                        && r.value in rows && Satisfies(r.value, Clauses(filter))
      ensures r.Ok? && Ascending(rows) ==>
        forall i :: 0 <= i < |rows| && Satisfies(rows[i], Clauses(filter)) ==> r.value.id <= rows[i].id
      ensures WellFormed(filter) && dbFails ==> r == Err(ConnectionFailed)
      ensures WellFormed(filter) && !dbFails && !Runnable(Clauses(filter)) ==> r == Err(QueryFailed)
      ensures WellFormed(filter) && !dbFails && Runnable(Clauses(filter)) ==> r.Ok? || r == Err(RecordNotFound)
      ensures WellFormed(filter) && !dbFails && Runnable(Clauses(filter)) ==>
        (r == Err(RecordNotFound) <==> forall i :: 0 <= i < |rows| ==> !Satisfies(rows[i], Clauses(filter)))
    {
      if !WellFormed(filter) then Panicked
      else if dbFails then Err(ConnectionFailed)
      else
        var cs := Clauses(filter);
        if !Runnable(cs) then Err(QueryFailed)
        else
          FirstIsLeast(rows, cs);
          match First(rows, cs)
          case None => Err(RecordNotFound)
          case Some(s) => Ok(s)
    }

    /** GetLibraryWithPagination (db.go:115-124). */
    function GetLibraryWithPagination(page: Int64, size: Int64, dbFails: bool): (r: Result<seq<Song>>)
      reads this
      ensures r.Ok? <==> !dbFails
      ensures dbFails ==> r == Err(ConnectionFailed)
      ensures r.Ok? ==> IsWindow(r.value, rows, Offset(page, size), size)
    {
      var offset := Offset(page, size);
      if dbFails then Err(ConnectionFailed) else Ok(Window(rows, offset, size))
    }

    /** FindWithFilterAndPagination (db.go:126-136): the window of the
        rows the encoded filter selects; no match is an empty page, not
        an error. */
    function FindWithFilterAndPagination(filter: string, page: Int64, size: Int64, dbFails: bool): (r: Result<seq<Song>>)
      reads this
      ensures r == Panicked <==> !WellFormed(filter)
      ensures r.Ok? <==> WellFormed(filter) && !dbFails && Runnable(Clauses(filter))
      ensures r.Err? ==> r.error != RecordNotFound
      ensures r.Ok? ==> IsWindow(r.value, Where(rows, Clauses(filter)), Offset(page, size), size)
    {
      var offset := Offset(page, size);
      if !WellFormed(filter) then Panicked
      else
        var cs := Clauses(filter);
        if dbFails then Err(ConnectionFailed)
        else if !Runnable(cs) then Err(QueryFailed)
        else Ok(Window(Where(rows, cs), offset, size))
    }

    /** GetLyricsWithPagination (db.go:138-152): the lyrics of the window
        of rows with the key, one per row, in the same order. */
    method GetLyricsWithPagination(group: string, song: string, page: Int64, size: Int64, dbFails: bool)
      returns (r: Result<seq<string>>)
      ensures r.Ok? <==> !dbFails
      ensures dbFails ==> r == Err(ConnectionFailed)
      ensures r.Ok? ==>
        var w := Window(Matching(rows, group, song), Offset(page, size), size);
        |r.value| == |w| && forall k :: 0 <= k < |w| ==> r.value[k] == w[k].lyrics
    {
      var offset := Offset(page, size);
      if dbFails {
        return Err(ConnectionFailed);
      }
      var songs := Window(Matching(rows, group, song), offset, size);
      var lyrics := CollectLyrics(songs);
      return Ok(lyrics);
    }

    /** AddSong (db.go:154-163), reporting the failure of its insert. */
    method AddSong(newSong: Song, createError: Option<string>) returns (err: Option<string>)
      requires Valid()
      modifies this
      ensures Valid()
      ensures AddOutcome(rows, nextId, err) == AddSongOutcome(old(rows), old(nextId), newSong, createError)
    {
      AddSongReportsFailure(rows, nextId, newSong, createError);
      if createError.Some? {
        return Some(AddErrorText(newSong, createError.value));
      }
      rows := Inserted(rows, nextId, newSong);
      nextId := nextId + 1;
      return None;
    }

    /** GetLibrary (db.go:165-174): every row. */
    function GetLibrary(dbFails: bool): (r: Result<seq<Song>>)
      reads this
      ensures r.Ok? <==> !dbFails
      ensures dbFails ==> r == Err(ConnectionFailed)
      ensures r.Ok? ==> r.value == rows
    {
      if dbFails then Err(ConnectionFailed) else Ok(rows)
    }

    /** GetLyrics (db.go:176-184): the lyrics of the first row, by id,
        with the key. */
    function GetLyrics(group: string, song: string, dbFails: bool): (r: Result<string>)
      reads this
      ensures dbFails ==> r == Err(ConnectionFailed)
      ensures !dbFails && !Exists(rows, group, song) ==> r == Err(RecordNotFound)
      ensures !dbFails && Exists(rows, group, song) ==> r.Ok?
      ensures r.Ok? ==>
        exists i :: && 0 <= i < |rows| && HasKey(rows[i], group, song) && r.value == rows[i].lyrics
                    && (Ascending(rows) ==>
                          forall j :: 0 <= j < |rows| && HasKey(rows[j], group, song) ==> rows[i].id <= rows[j].id)
    {
      if dbFails then Err(ConnectionFailed)
      else
        KeyClausesMeanKey(group, song);
        FirstIsLeast(rows, KeyClauses(group, song));
        match First(rows, KeyClauses(group, song))
        case None =>
          assert !Exists(rows, group, song);
          Err(RecordNotFound)
        case Some(s) =>
          var i :| 0 <= i < |rows| && rows[i] == s;
          Ok(s.lyrics)
    }

    /** DeleteSong (db.go:186-193): every row with the key goes; no match
        is not an error. */
    method DeleteSong(group: string, song: string, dbFails: bool) returns (r: Result<()>)
      requires Valid()
      modifies this
      ensures Valid() && nextId == old(nextId)
      ensures dbFails ==> r == Err(ConnectionFailed) && rows == old(rows)
      ensures !dbFails ==> r == Ok(()) && rows == Removed(old(rows), group, song)
    {
      if dbFails {
        return Err(ConnectionFailed);
      }
      ghost var before := rows;
      RemovedKeepsOrder(rows, group, song);
      RemovedMembers(rows, group, song);
      rows := Removed(rows, group, song);
      forall i | 0 <= i < |rows| ensures rows[i].id < nextId {
        assert rows[i] in before;
      }
      return Ok(());
    }

    /** UpdateSong (db.go:195-202): every row with the key is merged with
        the update; no match is not an error. */
    method UpdateSong(group: string, song: string, updateSong: Song, dbFails: bool) returns (r: Result<()>)
      requires Valid()
      modifies this
      ensures Valid() && nextId == old(nextId)
      ensures dbFails ==> r == Err(ConnectionFailed) && rows == old(rows)
      ensures !dbFails ==> r == Ok(()) && rows == Updated(old(rows), group, song, updateSong)
    {
      if dbFails {
        return Err(ConnectionFailed);
      }
      UpdateFrame(rows, group, song, updateSong);
      rows := Updated(rows, group, song, updateSong);
      return Ok(());
    }
  }
}
