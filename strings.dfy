/** `Split` is Go's `strings.Split` for a one-character separator, the
    only strings function the filter encoder calls. `Join`, with a string
    separator, is the join used to state what the encoder returns. */
module Strings {

  /** strings.Join: the parts with `sep` between consecutive ones. */
  function Join(parts: seq<string>, sep: string): string
  {
    if |parts| == 0 then ""
    else if |parts| == 1 then parts[0]
    else parts[0] + sep + Join(parts[1..], sep)
  }

  /** strings.Split with a one-character separator: the maximal pieces of
      `s` between occurrences of `sep`. There is always at least one
      piece: "" gives [""]. */
  function Split(s: string, sep: char): (parts: seq<string>)
    ensures |parts| >= 1
    decreases |s|
  {
    if s == [] then [[]]
    else
      var rest := Split(s[1..], sep);
      assert s == [s[0]] + s[1..];
      if s[0] == sep then [[]] + rest
      else [[s[0]] + rest[0]] + rest[1..]
  }

  /** One step of Split: the separator in front starts a new piece. */
  lemma SplitConsSep(s: string, sep: char)
    ensures Split([sep] + s, sep) == [[]] + Split(s, sep)
  {
    assert ([sep] + s)[1..] == s;
  }

  /** One step of Split: any other character in front is prepended to the
      first piece. */
  lemma SplitConsOther(c: char, s: string, sep: char)
    requires c != sep
    ensures Split([c] + s, sep) == [[c] + Split(s, sep)[0]] + Split(s, sep)[1..]
  {
    assert ([c] + s)[1..] == s;
  }

  /** Both steps of Split together. */
  lemma SplitCons(c: char, s: string, sep: char)
    ensures Split([c] + s, sep) ==
      if c == sep then [[]] + Split(s, sep)
      else [[c] + Split(s, sep)[0]] + Split(s, sep)[1..]
  {
    if c == sep {
      SplitConsSep(s, sep);
    } else {
      SplitConsOther(c, s, sep);
    }
  }

  /** There is a second piece exactly when the separator occurs. */
  lemma {:induction false} SplitCount(s: string, sep: char)
    ensures sep in s <==> |Split(s, sep)| >= 2
    decreases |s|
  {
    if s != [] {
      var c, t := s[0], s[1..];
      assert s == [c] + t;
      SplitCount(t, sep);
      SplitCons(c, t, sep);
      assert sep in s <==> c == sep || sep in t;
    }
  }

  /** No piece holds the separator. */
  lemma {:induction false} SplitPieces(s: string, sep: char)
    ensures forall i :: 0 <= i < |Split(s, sep)| ==> sep !in Split(s, sep)[i]
    decreases |s|
  {
    if s != [] {
      var c, t := s[0], s[1..];
      assert s == [c] + t;
      SplitPieces(t, sep);
      SplitCons(c, t, sep);
      var rest := Split(t, sep);
      if c != sep {
        assert sep !in rest[0];
        assert sep !in [c] + rest[0];
        forall j | 0 <= j < |rest| - 1 ensures sep !in rest[1..][j] {
          assert rest[1..][j] == rest[j + 1];
        }
      }
    }
  }

  /** Joining the pieces back with the separator gives the string. */
  lemma {:induction false} JoinSplit(s: string, sep: char)
    ensures Join(Split(s, sep), [sep]) == s
    decreases |s|
  {
    if s != [] {
      var c, t := s[0], s[1..];
      assert s == [c] + t;
      JoinSplit(t, sep);
      SplitCons(c, t, sep);
      var rest := Split(t, sep);
      if c == sep {
        assert ([[]] + rest)[1..] == rest;
      } else {
        var parts := [[c] + rest[0]] + rest[1..];
        if |rest| > 1 {
          assert parts[1..] == rest[1..];
        }
      }
    }
  }

  /** Prepending a character that is not the separator extends the first
      piece, whatever follows the first piece. */
  lemma ExtendFirst(c: char, rt: seq<string>, rb: seq<string>)
    requires |rt| >= 1
    ensures [[c] + (rt + rb)[0]] + (rt + rb)[1..] == ([[c] + rt[0]] + rt[1..]) + rb
  {
    assert (rt + rb)[0] == rt[0];
    assert (rt + rb)[1..] == rt[1..] + rb;
  }

  /** The inductive step of SplitAround, for a separator in front of the
      left side. */
  lemma SplitAroundSep(t: string, u: string, rb: seq<string>, sep: char)
    requires Split(u, sep) == Split(t, sep) + rb
    ensures Split([sep] + u, sep) == Split([sep] + t, sep) + rb
  {
    SplitConsSep(t, sep);
    SplitConsSep(u, sep);
    var rt := Split(t, sep);
    assert [[]] + (rt + rb) == ([[]] + rt) + rb;
  }

  /** The inductive step of SplitAround, for another character in front of
      the left side. */
  lemma SplitAroundOther(c: char, t: string, u: string, rb: seq<string>, sep: char)
    requires c != sep
    requires Split(u, sep) == Split(t, sep) + rb
    ensures Split([c] + u, sep) == Split([c] + t, sep) + rb
  {
    SplitConsOther(c, t, sep);
    SplitConsOther(c, u, sep);
    ExtendFirst(c, Split(t, sep), rb);
  }

  /** Splitting around one occurrence of the separator splits each side
      on its own. */
  lemma {:induction false} SplitAround(a: string, b: string, sep: char)
    ensures Split(a + [sep] + b, sep) == Split(a, sep) + Split(b, sep)
    decreases |a|
  {
    if a == [] {
      assert a + [sep] + b == [sep] + b;
      SplitCons(sep, b, sep);
    } else {
      var c, t := a[0], a[1..];
      SplitAround(t, b, sep);
      if c == sep {
        SplitAroundSep(t, t + [sep] + b, Split(b, sep), sep);
      } else {
        SplitAroundOther(c, t, t + [sep] + b, Split(b, sep), sep);
      }
      assert a == [c] + t;
      assert a + [sep] + b == [c] + (t + [sep] + b);
    }
  }

  /** A string without the separator is a single piece. */
  lemma {:induction false} SplitWithout(s: string, sep: char)
    requires sep !in s
    ensures Split(s, sep) == [s]
    decreases |s|
  {
    if s != [] {
      var c, t := s[0], s[1..];
      assert s == [c] + t;
      assert sep !in t;
      SplitWithout(t, sep);
      SplitCons(c, t, sep);
    }
  }

  /** Joining two non-empty lists puts one separator between them. */
  lemma {:induction false} JoinAppend(xs: seq<string>, ys: seq<string>, sep: string)
    requires |xs| >= 1 && |ys| >= 1
    ensures Join(xs + ys, sep) == Join(xs, sep) + sep + Join(ys, sep)
    decreases |xs|
  {
    if |xs| > 1 {
      assert (xs + ys)[1..] == xs[1..] + ys;
      JoinAppend(xs[1..], ys, sep);
    } else {
      assert (xs + ys)[1..] == ys;
    }
  }
}
