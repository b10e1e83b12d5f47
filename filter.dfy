/** The filter encoder `encode` of src/internal/base/db.go:68-88, which
    turns an `&`-separated list of `key=value` pieces into the text of a
    SQL WHERE clause, and a reader for that text that shows which
    equality constraints the text stands for. */
module Filter {
  import opened Wrappers
  import opened Strings

  /** One equality constraint `column = 'value'`. */
  datatype Clause = Clause(column: string, value: string)

  /** The key `group` names the column group_name; every other key is
      taken as a column name verbatim. */
  function Column(key: string): string
  {
    if key == "group" then "group_name" else key
  }

  /** encode reads twice[1] of every piece, so each `&`-piece must hold an
      `=`; otherwise the index is out of range and encode panics. */
  predicate WellFormed(filter: string)
  {
    forall p :: p in Split(filter, '&') ==> '=' in p
  }

  /** The constraint one piece stands for: the text before the first `=`
      (renamed) and the text between the first and the second `=`. */
  function ClauseOf(piece: string): Clause
    requires '=' in piece
  {
    SplitCount(piece, '=');
    var twice := Split(piece, '=');
    Clause(Column(twice[0]), twice[1])
  }

  /** The constraints of the filter, one per `&`-piece, in order. */
  function Clauses(filter: string): seq<Clause>
    requires WellFormed(filter)
  {
    ClausesOf(Split(filter, '&'))
  }

  function ClausesOf(pieces: seq<string>): seq<Clause>
    requires forall p :: p in pieces ==> '=' in p
  {
    seq(|pieces|, i requires 0 <= i < |pieces| => ClauseOf(pieces[i]))
  }

  /** The text of one constraint. The value is quoted as it is: a quote
      inside it is not escaped. */
  function Render(c: Clause): string
  {
    c.column + " = " + "'" + c.value + "'"
  }

  function Rendered(cs: seq<Clause>): seq<string>
  {
    seq(|cs|, i requires 0 <= i < |cs| => Render(cs[i]))
  }

  /** The WHERE text encode returns. */
  function EncodedText(filter: string): string
    requires WellFormed(filter)
  {
    Join(Rendered(Clauses(filter)), " and ")
  }

  /** encode, as it is written: one pass over the pieces, growing `all`
      and putting " and " in front of every clause but the first. */
  method Encode(filter: string) returns (all: string)
    requires WellFormed(filter)
    ensures all == EncodedText(filter)
  {
    var query := Split(filter, '&');
    ghost var cs := Clauses(filter);
    all := "";
    var i := 0;
    while i < |query|
      invariant 0 <= i <= |query|
      invariant all == Join(Rendered(cs[..i]), " and ")
      invariant all == "" <==> i == 0
    {
      assert query[i] in query;
      if all != "" {
        all := all + " and ";
      }
      PieceText(query[i]);
      var twice := Split(query[i], '=');
      if twice[0] == "group" {
        twice := twice[0 := "group_name"];
      }
      var temple := twice[0] + " = " + "'" + twice[1] + "'";
      assert cs[i] == ClauseOf(query[i]);
      RenderedGrows(cs, i);
      all := all + temple;
      i := i + 1;
    }
    assert cs[..|query|] == cs;
  }

  /** The text encode builds from one piece is the rendered clause. */
  lemma PieceText(piece: string)
    requires '=' in piece
    ensures |Split(piece, '=')| >= 2
    ensures var twice := Split(piece, '=');
      Render(ClauseOf(piece)) == Column(twice[0]) + " = " + "'" + twice[1] + "'"
  {
    SplitCount(piece, '=');
  }

  /** Rendering one more clause: the text so far, " and " unless it was
      the first clause, and the new clause. */
  lemma RenderedGrows(cs: seq<Clause>, i: nat)
    requires i < |cs|
    ensures i == 0 ==> Join(Rendered(cs[..i + 1]), " and ") == Render(cs[i])
    ensures 0 < i ==>
      Join(Rendered(cs[..i + 1]), " and ") == Join(Rendered(cs[..i]), " and ") + " and " + Render(cs[i])
  {
    assert Rendered(cs[..i + 1]) == Rendered(cs[..i]) + [Render(cs[i])];
    if 0 < i {
      JoinAppend(Rendered(cs[..i]), [Render(cs[i])], " and ");
    }
  }

  /** Clauses and their texts follow the pieces they come from. */
  lemma ClausesOfAppend(p1: seq<string>, p2: seq<string>)
    requires forall p :: p in p1 ==> '=' in p
    requires forall p :: p in p2 ==> '=' in p
    ensures ClausesOf(p1 + p2) == ClausesOf(p1) + ClausesOf(p2)
  {
    var c := ClausesOf(p1 + p2);
    forall i | 0 <= i < |c| ensures c[i] == (ClausesOf(p1) + ClausesOf(p2))[i] {
      if i >= |p1| {
        assert (p1 + p2)[i] == p2[i - |p1|];
      }
    }
  }

  lemma RenderedAppend(c1: seq<Clause>, c2: seq<Clause>)
    ensures Rendered(c1 + c2) == Rendered(c1) + Rendered(c2)
  {
    var r := Rendered(c1 + c2);
    forall i | 0 <= i < |r| ensures r[i] == (Rendered(c1) + Rendered(c2))[i] {
      if i >= |c1| {
        assert (c1 + c2)[i] == c2[i - |c1|];
      }
    }
  }

  /** Two filters joined by `&` give the clauses of the first followed by
      those of the second, and their texts joined by " and ". */
  lemma ConcatenatedFilters(f1: string, f2: string)
    ensures WellFormed(f1 + "&" + f2) <==> WellFormed(f1) && WellFormed(f2)
    ensures WellFormed(f1) && WellFormed(f2) ==>
      Clauses(f1 + "&" + f2) == Clauses(f1) + Clauses(f2) &&
      EncodedText(f1 + "&" + f2) == EncodedText(f1) + " and " + EncodedText(f2)
  {
    var p1, p2 := Split(f1, '&'), Split(f2, '&');
    assert f1 + "&" + f2 == f1 + ['&'] + f2;
    SplitAround(f1, f2, '&');
    assert Split(f1 + "&" + f2, '&') == p1 + p2;
    if WellFormed(f1) && WellFormed(f2) {
      ClausesOfAppend(p1, p2);
      RenderedAppend(Clauses(f1), Clauses(f2));
      JoinAppend(Rendered(Clauses(f1)), Rendered(Clauses(f2)), " and ");
    }
  }

  /** A single `key=value` piece (neither side holding `&` or `=`) is the
      one clause on the renamed key with the value as written, quotes and
      all. */
  lemma SinglePair(key: string, value: string)
    requires '&' !in key && '&' !in value && '=' !in key && '=' !in value
    ensures WellFormed(key + "=" + value)
    ensures Clauses(key + "=" + value) == [Clause(Column(key), value)]
    ensures EncodedText(key + "=" + value) == Column(key) + " = '" + value + "'"
  {
    var piece := key + "=" + value;
    assert piece == key + ['='] + value;
    SplitWithout(piece, '&');
    SplitAround(key, value, '=');
    SplitWithout(key, '=');
    SplitWithout(value, '=');
  }

  /** Only the text between the first and the second `=` of a piece is
      the value: whatever follows a second `=` is dropped. */
  lemma SecondEqualsDropped(key: string, value: string, rest: string)
    requires '&' !in key && '&' !in value && '&' !in rest && '=' !in key && '=' !in value
    ensures WellFormed(key + "=" + value + "=" + rest)
    ensures Clauses(key + "=" + value + "=" + rest) == [Clause(Column(key), value)]
  {
    var piece := key + "=" + value + "=" + rest;
    assert piece == key + ['='] + (value + ['='] + rest);
    SplitWithout(piece, '&');
    SplitAround(key, value + ['='] + rest, '=');
    SplitAround(value, rest, '=');
    SplitWithout(key, '=');
    SplitWithout(value, '=');
  }

  /** The empty filter is one empty piece, which has no `=`. */
  lemma EmptyFilterIsMalformed()
    ensures !WellFormed("")
  {
    assert Split([], '&') == [[]];
    assert [] in Split([], '&') && '=' !in [];
  }

  /** The longest prefix of `t` without `c`, and the rest of `t`. */
  function Until(t: string, c: char): (r: (string, string))
    ensures r.0 + r.1 == t
    ensures c !in r.0
    ensures r.1 == [] || r.1[0] == c
    decreases |t|
  {
    if t == [] then ([], [])
    else if t[0] == c then ([], t)
    else var r := Until(t[1..], c); ([t[0]] + r.0, r.1)
  }

  lemma {:induction false} UntilSplits(a: string, b: string, c: char)
    requires c !in a
    requires b == [] || b[0] == c
    ensures Until(a + b, c) == (a, b)
    decreases |a|
  {
    if a != [] {
      assert (a + b)[0] == a[0] && (a + b)[1..] == a[1..] + b;
      UntilSplits(a[1..], b, c);
      assert [a[0]] + a[1..] == a;
    } else {
      assert a + b == b;
    }
  }

  /** Reads a WHERE text of the shape encode writes,
      `column = 'value' and column = 'value' ...`, taking each column up to
      the first space and each value up to the next quote. */
  function ParseWhere(t: string): Option<seq<Clause>>
    decreases |t|
  {
    var col := Until(t, ' ');
    if |col.1| < 4 || col.1[..4] != " = '" then None
    else
      var val := Until(col.1[4..], '\'');
      if val.1 == [] then None
      else ParseAfter(Clause(col.0, val.0), val.1[1..])
  }

  /** What follows a clause: the end of the text, or " and " and more. */
  function ParseAfter(c: Clause, rest: string): Option<seq<Clause>>
    decreases |rest|, 1
  {
    if rest == [] then Some([c])
    else if |rest| < 5 || rest[..5] != " and " then None
    else
      match ParseWhere(rest[5..])
      case None => None
      case Some(cs) => Some([c] + cs)
  }

  /** Clauses whose columns have no space and whose values have no quote. */
  predicate Plain(cs: seq<Clause>)
  {
    forall i :: 0 <= i < |cs| ==> ' ' !in cs[i].column && '\'' !in cs[i].value
  }

  /** Reading one plain clause leaves what follows it to ParseAfter. */
  lemma ParseOne(c: Clause, tail: string)
    requires ' ' !in c.column && '\'' !in c.value
    ensures ParseWhere(Render(c) + tail) == ParseAfter(c, tail)
  {
    var t := Render(c) + tail;
    var quoted := "'" + tail;
    var after := " = '" + (c.value + quoted);
    assert t == c.column + after;
    UntilSplits(c.column, after, ' ');
    var col := Until(t, ' ');
    assert col.0 == c.column && col.1 == after;
    assert |after| >= 4 && after[..4] == " = '";
    assert after[4..] == c.value + quoted;
    UntilSplits(c.value, quoted, '\'');
    var val := Until(after[4..], '\'');
    assert val.0 == c.value && val.1 == quoted;
    assert quoted[1..] == tail;
    assert Clause(col.0, val.0) == c;
  }

  /** Reading back the joined text of plain clauses gives the clauses. */
  lemma {:induction false} ParseRendered(cs: seq<Clause>)
    requires |cs| >= 1 && Plain(cs)
    ensures ParseWhere(Join(Rendered(cs), " and ")) == Some(cs)
    decreases |cs|
  {
    var rs := Rendered(cs);
    if |cs| == 1 {
      ParseOne(cs[0], "");
      assert Render(cs[0]) + "" == Join(rs, " and ");
      assert [cs[0]] == cs;
    } else {
      var more := Join(Rendered(cs[1..]), " and ");
      assert rs[1..] == Rendered(cs[1..]);
      assert Join(rs, " and ") == Render(cs[0]) + (" and " + more);
      ParseOne(cs[0], " and " + more);
      assert (" and " + more)[5..] == more;
      ParseRendered(cs[1..]);
      assert [cs[0]] + cs[1..] == cs;
    }
  }

  /** When no clause has a space in its column or a quote in its value,
      the text encode writes reads back as exactly the filter's clauses. */
  lemma EncodedTextReadsBack(filter: string)
    requires WellFormed(filter) && Plain(Clauses(filter))
    ensures ParseWhere(EncodedText(filter)) == Some(Clauses(filter))
  {
    ParseRendered(Clauses(filter));
  }

  /** The text for `key=value` is the rendered clause, whatever the
      value holds. */
  lemma PairText(key: string, a: string, b: string)
    requires '&' !in key && '&' !in a && '&' !in b
    requires '=' !in key && '=' !in a && '=' !in b
    ensures WellFormed(key + "=" + (a + "'" + b))
    ensures EncodedText(key + "=" + (a + "'" + b)) == Render(Clause(Column(key), a)) + (b + "'")
  {
    var v := a + "'" + b;
    assert '&' !in v && '=' !in v;
    SinglePair(key, v);
    assert Render(Clause(Column(key), a)) + (b + "'") == Column(key) + " = '" + v + "'";
  }

  /** A quote inside a value is not escaped, so it ends the quoted text
      early: the reader sees the value stop at the quote and the rest of
      the value as further SQL; when that rest is short it reads as
      nothing at all. */
  lemma QuoteEndsValue(key: string, a: string, b: string)
    requires '&' !in key && '&' !in a && '&' !in b
    requires '=' !in key && '=' !in a && '=' !in b
    requires ' ' !in Column(key) && '\'' !in a
    ensures WellFormed(key + "=" + (a + "'" + b))
    ensures ParseWhere(EncodedText(key + "=" + (a + "'" + b))) == ParseAfter(Clause(Column(key), a), b + "'")
    ensures |b| < 4 ==> ParseWhere(EncodedText(key + "=" + (a + "'" + b))) == None
  {
    PairText(key, a, b);
    ParseOne(Clause(Column(key), a), b + "'");
  }
}
