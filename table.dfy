/** What the repository's SQL statements do to the songs table
    (src/internal/base/db.go:90-202), stated over the table as a sequence
    of rows in primary-key order. */
module Table {
  import opened Wrappers
  import opened Model
  import opened Filter

  /** The rows are in strictly ascending id order. */
  ghost predicate Ascending(rows: seq<Song>)
  {
    forall i, j :: 0 <= i < j < |rows| ==> rows[i].id < rows[j].id
  }

  /** The text columns of the songs table. */
  predicate IsTextColumn(column: string)
  {
    column == "group_name" || column == "song" || column == "release_date" || column == "lyrics"
  }

  function ColumnValue(s: Song, column: string): string
    requires IsTextColumn(column)
  {
    match column
    case "group_name" => s.groupName
    case "song" => s.song
    case "release_date" => s.releaseDate
    case "lyrics" => s.lyrics
  }

  /** Every clause names a text column. */
  predicate Known(cs: seq<Clause>)
  {
    forall i :: 0 <= i < |cs| ==> IsTextColumn(cs[i].column)
  }

  /** A row meets every equality clause. */
  predicate Satisfies(s: Song, cs: seq<Clause>)
    requires Known(cs)
  {
    forall i :: 0 <= i < |cs| ==> ColumnValue(s, cs[i].column) == cs[i].value
  }

  /** The bound condition `group_name = ? and song = ?`. */
  function KeyClauses(group: string, song: string): seq<Clause>
  {
    [Clause("group_name", group), Clause("song", song)]
  }

  predicate HasKey(s: Song, group: string, song: string)
  {
    s.groupName == group && s.song == song
  }

  lemma KeyClausesMeanKey(group: string, song: string)
    ensures Known(KeyClauses(group, song))
    ensures forall s :: Satisfies(s, KeyClauses(group, song)) <==> HasKey(s, group, song)
  {
    var cs := KeyClauses(group, song);
    assert cs[0].column == "group_name" && cs[1].column == "song";
    forall s ensures Satisfies(s, cs) <==> HasKey(s, group, song) {
      assert ColumnValue(s, cs[0].column) == s.groupName;
      assert ColumnValue(s, cs[1].column) == s.song;
    }
  }

  predicate Exists(rows: seq<Song>, group: string, song: string)
  {
    exists i :: 0 <= i < |rows| && HasKey(rows[i], group, song)
  }

  /** The key is present when the first row has it or a later row does. */
  lemma ExistsCons(rows: seq<Song>, group: string, song: string)
    requires rows != []
    ensures Exists(rows, group, song) <==> HasKey(rows[0], group, song) || Exists(rows[1..], group, song)
  {
    if Exists(rows[1..], group, song) {
      var i :| 0 <= i < |rows[1..]| && HasKey(rows[1..][i], group, song);
      assert HasKey(rows[i + 1], group, song);
    }
    if Exists(rows, group, song) && !HasKey(rows[0], group, song) {
      var i :| 0 <= i < |rows| && HasKey(rows[i], group, song);
      assert HasKey(rows[1..][i - 1], group, song);
    }
  }

  /** Rows drawn from the rows after the first come after it in id order,
      so the first row can be put in front of them. */
  lemma AfterFirst(rows: seq<Song>, rest: seq<Song>)
    requires rows != [] && forall s :: s in rest ==> s in rows[1..]
    ensures Ascending(rows) && Ascending(rest) ==> Ascending([rows[0]] + rest)
  {
    if Ascending(rows) && Ascending(rest) {
      forall k | 0 <= k < |rest| ensures rows[0].id < rest[k].id {
        assert rest[k] in rows[1..];
        var j :| 0 <= j < |rows[1..]| && rows[1..][j] == rest[k];
        assert rows[j + 1] == rest[k];
      }
    }
  }

  /** The rows a WHERE condition selects, in table order. */
  function Where(rows: seq<Song>, cs: seq<Clause>): (res: seq<Song>)
    requires Known(cs)
    ensures |res| <= |rows|
    ensures forall s :: s in res <==> s in rows && Satisfies(s, cs)
    ensures Ascending(rows) ==> Ascending(res)
  {
    if rows == [] then []
    else
      var rest := Where(rows[1..], cs);
      AfterFirst(rows, rest);
      if Satisfies(rows[0], cs) then [rows[0]] + rest else rest
  }

  /** The rows with the key (group, song). */
  function Matching(rows: seq<Song>, group: string, song: string): (res: seq<Song>)
    ensures forall s :: s in res <==> s in rows && HasKey(s, group, song)
  {
    KeyClausesMeanKey(group, song);
    Where(rows, KeyClauses(group, song))
  }

  /** No row is selected exactly when no row has the key. */
  lemma MatchingEmpty(rows: seq<Song>, group: string, song: string)
    ensures |Matching(rows, group, song)| == 0 <==> !Exists(rows, group, song)
  {
    var res := Matching(rows, group, song);
    if Exists(rows, group, song) {
      var i :| 0 <= i < |rows| && HasKey(rows[i], group, song);
      assert rows[i] in res;
    }
    if |res| > 0 {
      assert res[0] in rows;
      var i :| 0 <= i < |rows| && rows[i] == res[0];
      assert HasKey(rows[i], group, song);
    }
  }

  /** One step of Matching: the first row is taken when it has the key. */
  lemma MatchingCons(rows: seq<Song>, group: string, song: string)
    requires rows != []
    ensures Matching(rows, group, song) ==
      if HasKey(rows[0], group, song) then [rows[0]] + Matching(rows[1..], group, song)
      else Matching(rows[1..], group, song)
  {
    KeyClausesMeanKey(group, song);
  }

  /** `First`: the first row, in table order, the condition selects. */
  function First(rows: seq<Song>, cs: seq<Clause>): (r: Option<Song>)
    requires Known(cs)
    ensures r.None? <==> forall i :: 0 <= i < |rows| ==> !Satisfies(rows[i], cs)
    ensures r.Some? ==> r.value in rows && Satisfies(r.value, cs)
  {
    if rows == [] then None
    else if Satisfies(rows[0], cs) then Some(rows[0])
    else
      var r := First(rows[1..], cs);
      assert forall i :: 1 <= i < |rows| ==> rows[i] == rows[1..][i - 1];
      r
  }

  /** With the rows in primary-key order the first selected row has the
      least id among the selected rows, as ORDER BY id LIMIT 1 gives. */
  lemma {:induction false} FirstIsLeast(rows: seq<Song>, cs: seq<Clause>)
    requires Known(cs)
    ensures Ascending(rows) && First(rows, cs).Some? ==>
      forall i :: 0 <= i < |rows| && Satisfies(rows[i], cs) ==> First(rows, cs).value.id <= rows[i].id
  {
    if Ascending(rows) && rows != [] && !Satisfies(rows[0], cs) {
      var t := rows[1..];
      assert Ascending(t);
      FirstIsLeast(t, cs);
      forall i | 1 <= i < |rows| ensures rows[i] == t[i - 1] {
      }
    }
  }

  /** DELETE ... WHERE group_name = ? and song = ?: the rows without the key. */
  function Removed(rows: seq<Song>, group: string, song: string): seq<Song>
  {
    if rows == [] then []
    else
      var rest := Removed(rows[1..], group, song);
      if HasKey(rows[0], group, song) then rest else [rows[0]] + rest
  }

  /** The rows that stay are exactly the rows without the key. */
  lemma {:induction false} RemovedMembers(rows: seq<Song>, group: string, song: string)
    ensures forall s :: s in Removed(rows, group, song) <==> s in rows && !HasKey(s, group, song)
  {
    if rows != [] {
      RemovedMembers(rows[1..], group, song);
      assert rows == [rows[0]] + rows[1..];
    }
  }

  /** After the delete no row has the key. */
  lemma RemovedDropsKey(rows: seq<Song>, group: string, song: string)
    ensures !Exists(Removed(rows, group, song), group, song)
  {
    var res := Removed(rows, group, song);
    RemovedMembers(rows, group, song);
    forall i | 0 <= i < |res| ensures !HasKey(res[i], group, song) {
      assert res[i] in res;
    }
  }

  /** One step of Removed: the first row goes when it has the key. */
  lemma RemovedCons(rows: seq<Song>, group: string, song: string)
    requires rows != []
    ensures Removed(rows, group, song) ==
      if HasKey(rows[0], group, song) then Removed(rows[1..], group, song)
      else [rows[0]] + Removed(rows[1..], group, song)
  {
  }

  /** Deleting a key that no row has leaves the table as it was. */
  lemma {:induction false} RemovedWithoutKey(rows: seq<Song>, group: string, song: string)
    requires !Exists(rows, group, song)
    ensures Removed(rows, group, song) == rows
  {
    if rows != [] {
      ExistsCons(rows, group, song);
      RemovedWithoutKey(rows[1..], group, song);
      assert rows == [rows[0]] + rows[1..];
    }
  }

  /** Deleting keeps the id order of the rows that stay. */
  lemma {:induction false} RemovedKeepsOrder(rows: seq<Song>, group: string, song: string)
    requires Ascending(rows)
    ensures Ascending(Removed(rows, group, song))
  {
    if rows != [] {
      var rest := Removed(rows[1..], group, song);
      assert Ascending(rows[1..]);
      RemovedKeepsOrder(rows[1..], group, song);
      RemovedMembers(rows[1..], group, song);
      AfterFirst(rows, rest);
    }
  }

  /** Deleting splits the table: the rows kept and the rows removed make
      up exactly the rows there were. */
  lemma {:induction false} DeletePartitions(rows: seq<Song>, group: string, song: string)
    ensures multiset(Removed(rows, group, song)) + multiset(Matching(rows, group, song)) == multiset(rows)
  {
    if rows != [] {
      var r, t := rows[0], rows[1..];
      DeletePartitions(t, group, song);
      MatchingCons(rows, group, song);
      RemovedCons(rows, group, song);
      assert rows == [r] + t;
      PartitionStep(HasKey(r, group, song), r, t, rows, Removed(t, group, song), Matching(t, group, song),
                    Removed(rows, group, song), Matching(rows, group, song));
    }
  }

  /** Putting a row in front of a partition of `t` into one side gives a
      partition of the longer sequence. */
  lemma PartitionStep<T>(take: bool, r: T, t: seq<T>, all: seq<T>, kept: seq<T>, taken: seq<T>, kept': seq<T>, taken': seq<T>)
    requires all == [r] + t
    requires multiset(kept) + multiset(taken) == multiset(t)
    requires take ==> kept' == kept && taken' == [r] + taken
    requires !take ==> kept' == [r] + kept && taken' == taken
    ensures multiset(kept') + multiset(taken') == multiset(all)
  {
  }

  /** gorm's Update with a struct writes only the fields that are not the
      zero value (here: not the empty string). The row keeps its id because
      the decoded update is taken to carry a zero id. */
  function Merge(row: Song, upd: Song): Song
  {
    Song(row.id,
         if upd.groupName == "" then row.groupName else upd.groupName,
         if upd.song == "" then row.song else upd.song,
         if upd.releaseDate == "" then row.releaseDate else upd.releaseDate,
         if upd.lyrics == "" then row.lyrics else upd.lyrics)
  }

  /** UPDATE ... WHERE group_name = ? and song = ?: every row with the key
      is merged with `upd`; the others stay as they are, in place. */
  function Updated(rows: seq<Song>, group: string, song: string, upd: Song): seq<Song>
  {
    seq(|rows|, i requires 0 <= i < |rows| =>
      if HasKey(rows[i], group, song) then Merge(rows[i], upd) else rows[i])
  }

  /** An update without a matching row changes nothing; otherwise it keeps
      the length and every id, so the id order survives. */
  lemma UpdateFrame(rows: seq<Song>, group: string, song: string, upd: Song)
    ensures |Updated(rows, group, song, upd)| == |rows|
    ensures forall i :: 0 <= i < |rows| ==> Updated(rows, group, song, upd)[i].id == rows[i].id
    ensures Ascending(rows) ==> Ascending(Updated(rows, group, song, upd))
    ensures !Exists(rows, group, song) ==> Updated(rows, group, song, upd) == rows
  {
  }

  /** After an update that gives both key fields, some row has the new key
      if any row had the old one, and no row keeps the old key unless it
      is the new key too. */
  lemma UpdateMovesKey(rows: seq<Song>, group: string, song: string, upd: Song)
    requires upd.groupName != "" && upd.song != ""
    ensures Exists(rows, group, song) ==> Exists(Updated(rows, group, song, upd), upd.groupName, upd.song)
    ensures (upd.groupName, upd.song) != (group, song) ==> !Exists(Updated(rows, group, song, upd), group, song)
  {
    var u := Updated(rows, group, song, upd);
    if Exists(rows, group, song) {
      var i :| 0 <= i < |rows| && HasKey(rows[i], group, song);
      assert HasKey(u[i], upd.groupName, upd.song);
    }
  }

  /** INSERT: the row goes at the end with the id the database assigns. */
  function Inserted(rows: seq<Song>, id: nat, s: Song): seq<Song>
  {
    rows + [s.(id := id)]
  }

  /** Inserting with an id above all others keeps the id order and makes
      the key present. */
  lemma InsertKeepsOrder(rows: seq<Song>, id: nat, s: Song)
    requires Ascending(rows)
    requires forall i :: 0 <= i < |rows| ==> rows[i].id < id
    ensures Ascending(Inserted(rows, id, s))
    ensures Exists(Inserted(rows, id, s), s.groupName, s.song)
  {
    assert HasKey(Inserted(rows, id, s)[|rows|], s.groupName, s.song);
  }
}
