/**
 The `USE`-line sanitizer of the `/execute_sql` handler (server.js:75-77):
 the client's SQL text is split at every line feed, the lines whose trimmed,
 upper-cased form starts with `USE` are dropped (PostgreSQL has no `USE`
 statement), and the remaining lines are joined again with line feeds.
 */
module Sanitizer {
  import opened Ascii

  const LineFeed: char := '\n'

  /** `String.prototype.split` with a one-character separator: always at least one piece, no piece holds the separator. */
  function Split(s: string, sep: char): (pieces: seq<string>)
    ensures |pieces| >= 1
    ensures forall i :: 0 <= i < |pieces| ==> sep !in pieces[i]
    decreases |s|
  {
    if s == [] then [[]]
    else
      var rest := Split(s[1..], sep);
      if s[0] == sep then [[]] + rest
      else [[s[0]] + rest[0]] + rest[1..]
  }

  /** `Array.prototype.join` with a one-character separator: an empty array gives the empty string. */
  function Join(pieces: seq<string>, sep: char): string
    decreases |pieces|
  {
    if |pieces| == 0 then []
    else if |pieces| == 1 then pieces[0]
    else pieces[0] + [sep] + Join(pieces[1..], sep)
  }

  /** Joining the pieces of a split gives back the string that was split. */
  lemma {:induction false} JoinSplit(s: string, sep: char)
    ensures Join(Split(s, sep), sep) == s
    decreases |s|
  {
    if s != [] {
      var rest := Split(s[1..], sep);
      JoinSplit(s[1..], sep);
      if s[0] == sep {
        assert Split(s, sep) == [[]] + rest;
        assert Join([[]] + rest, sep) == [] + [sep] + Join(rest, sep);
      } else {
        var first := [s[0]] + rest[0];
        assert Split(s, sep) == [first] + rest[1..];
        if |rest| == 1 {
          assert Join([first], sep) == first;
        } else {
          assert Join([first] + rest[1..], sep) == first + [sep] + Join(rest[1..], sep);
          assert Join(rest, sep) == rest[0] + [sep] + Join(rest[1..], sep);
        }
      }
    }
  }

  /** Splitting `x + tail` where `x` holds no separator glues `x` to the first piece of `tail`. */
  lemma {:induction false} SplitPrefix(x: string, tail: string, sep: char)
    requires sep !in x
    ensures Split(x + tail, sep) == [x + Split(tail, sep)[0]] + Split(tail, sep)[1..]
    decreases |x|
  {
    if x != [] {
      SplitPrefix(x[1..], tail, sep);
      assert (x + tail)[1..] == x[1..] + tail;
      assert (x + tail)[0] == x[0];
      assert [x[0]] + (x[1..] + Split(tail, sep)[0]) == x + Split(tail, sep)[0];
    } else {
      var pieces := Split(tail, sep);
      assert x + tail == tail;
      assert x + pieces[0] == pieces[0];
      assert pieces == [pieces[0]] + pieces[1..];
    }
  }

  /** Splitting a join of separator-free pieces gives the pieces back (an empty array does not: it joins to "" and "" splits to [""]). */
  lemma {:induction false} SplitJoin(pieces: seq<string>, sep: char)
    requires |pieces| >= 1
    requires forall i :: 0 <= i < |pieces| ==> sep !in pieces[i]
    ensures Split(Join(pieces, sep), sep) == pieces
    decreases |pieces|
  {
    var x := pieces[0];
    if |pieces| == 1 {
      SplitPrefix(x, [], sep);
      assert x + [] == x;
    } else {
      var tail := [sep] + Join(pieces[1..], sep);
      SplitJoin(pieces[1..], sep);
      assert tail[1..] == Join(pieces[1..], sep);
      assert Split(tail, sep) == [[]] + pieces[1..];
      SplitPrefix(x, tail, sep);
      assert x + [] == x;
      assert Join(pieces, sep) == x + tail;
    }
  }

  /** The drop test of server.js:76: the trimmed, upper-cased line starts with `USE`. */
  predicate IsUseLine(line: string) {
    StartsWith(UpperStr(Trim(line)), "USE")
  }

  /** `Array.prototype.filter`: the elements that pass `keep`, in order. */
  function Filter<T>(xs: seq<T>, keep: T -> bool): (r: seq<T>)
    ensures |r| <= |xs|
    ensures forall i :: 0 <= i < |r| ==> keep(r[i]) && r[i] in xs
    decreases |xs|
  {
    if xs == [] then []
    else (if keep(xs[0]) then [xs[0]] else []) + Filter(xs[1..], keep)
  }

  /** The callback of server.js:76: a line is kept unless it is a `USE` line. */
  predicate KeepLine(line: string) {
    !IsUseLine(line)
  }

  /** server.js:75-77: split at line feeds, drop the `USE` lines, join with line feeds. */
  function Sanitize(sql: string): string {
    Join(Filter(Split(sql, LineFeed), KeepLine), LineFeed)
  }

  // ---------------------------------------------------------------------------
  // The filter

  /** `a` is obtained from `b` by deleting elements. */
  predicate IsSubsequence<T(==)>(a: seq<T>, b: seq<T>)
    decreases |b|
  {
    a == [] || (b != [] && ((a[0] == b[0] && IsSubsequence(a[1..], b[1..])) || IsSubsequence(a, b[1..])))
  }

  /** The filter works element by element: filtering a concatenation filters each part. */
  lemma {:induction false} FilterAppend<T>(a: seq<T>, b: seq<T>, keep: T -> bool)
    ensures Filter(a + b, keep) == Filter(a, keep) + Filter(b, keep)
    decreases |a|
  {
    if a == [] {
      assert a + b == b;
    } else {
      FilterAppend(a[1..], b, keep);
      assert (a + b)[1..] == a[1..] + b;
      assert (a + b)[0] == a[0];
    }
  }

  /** Every copy of a kept element survives and every copy of a rejected one goes. */
  lemma {:induction false} FilterCount<T>(xs: seq<T>, keep: T -> bool, x: T)
    ensures multiset(Filter(xs, keep))[x] == if keep(x) then multiset(xs)[x] else 0
    decreases |xs|
  {
    if xs != [] {
      FilterCount(xs[1..], keep, x);
      assert xs == [xs[0]] + xs[1..];
    }
  }

  /** The kept elements are the input with some deleted, in their original order. */
  lemma {:induction false} FilterIsSubsequence<T>(xs: seq<T>, keep: T -> bool)
    ensures IsSubsequence(Filter(xs, keep), xs)
    decreases |xs|
  {
    if xs != [] {
      FilterIsSubsequence(xs[1..], keep);
      var rest := Filter(xs[1..], keep);
      if keep(xs[0]) {
        assert Filter(xs, keep) == [xs[0]] + rest;
      } else {
        assert Filter(xs, keep) == rest;
      }
    }
  }

  /** The filter leaves its input alone iff every element passes. */
  lemma {:induction false} FilterUnchanged<T>(xs: seq<T>, keep: T -> bool)
    ensures Filter(xs, keep) == xs <==> forall i :: 0 <= i < |xs| ==> keep(xs[i])
    decreases |xs|
  {
    if xs != [] {
      FilterUnchanged(xs[1..], keep);
      if keep(xs[0]) {
        assert Filter(xs, keep) == [xs[0]] + Filter(xs[1..], keep);
        assert forall i :: 1 <= i < |xs| ==> xs[i] == xs[1..][i - 1];
      } else {
        assert |Filter(xs, keep)| < |xs|;
      }
    }
  }

  /** Filtering twice is filtering once. */
  lemma FilterIdempotent<T>(xs: seq<T>, keep: T -> bool)
    ensures Filter(Filter(xs, keep), keep) == Filter(xs, keep)
  {
    FilterUnchanged(Filter(xs, keep), keep);
  }

  // ---------------------------------------------------------------------------
  // The drop test

  /** The letters `use`, in any case, start at `k`. */
  predicate UseWordAt(s: string, k: nat) {
    k + 3 <= |s| && Upper(s[k]) == 'U' && Upper(s[k + 1]) == 'S' && Upper(s[k + 2]) == 'E'
  }

  /** `startsWith("USE")`, character by character. */
  lemma StartsWithUse(u: string)
    ensures StartsWith(u, "USE") <==> |u| >= 3 && u[0] == 'U' && u[1] == 'S' && u[2] == 'E'
  {
    if |u| >= 3 && u[0] == 'U' && u[1] == 'S' && u[2] == 'E' {
      assert u[..3] == "USE";
    }
  }

  /** The drop test looks only at the three characters after the leading white space, ignoring their case. */
  lemma UseLineSpec(line: string)
    ensures IsUseLine(line) <==> UseWordAt(line, SpaceEnd(line, 0))
  {
    var a := SpaceEnd(line, 0);
    var b := SpaceStart(line, a, |line|);
    var r := Trim(line);
    assert r == line[a..b];
    StartsWithUse(UpperStr(r));
    if UseWordAt(line, a) {
      assert !IsSpace(line[a + 2]);
    }
    if a + 3 <= b {
      assert r[0] == line[a] && r[1] == line[a + 1] && r[2] == line[a + 2];
    }
  }

  /** Leading white space on a line does not change the drop test. */
  lemma UseLineIgnoresIndent(ws: string, line: string)
    requires AllSpace(ws)
    ensures IsUseLine(ws + line) <==> IsUseLine(line)
  {
    var s := ws + line;
    var a := SpaceEnd(line, 0);
    assert forall i :: 0 <= i < |line| ==> s[|ws| + i] == line[i];
    SpaceEndIs(s, 0, |ws| + a);
    UseLineSpec(s);
    UseLineSpec(line);
  }

  /** Upper-casing a line first does not change the drop test. */
  lemma UseLineIgnoresCase(line: string)
    ensures IsUseLine(UpperStr(line)) <==> IsUseLine(line)
  {
    var u := UpperStr(line);
    assert forall c :: IsSpace(Upper(c)) == IsSpace(c);
    assert forall c :: Upper(Upper(c)) == Upper(c);
    SpaceEndIs(u, 0, SpaceEnd(line, 0));
    UseLineSpec(line);
    UseLineSpec(u);
  }

  // ---------------------------------------------------------------------------
  // The sanitizer

  /** The lines of the output are exactly the kept lines of the input; if none is kept the output is empty. */
  lemma SanitizeLines(sql: string)
    ensures var kept := Filter(Split(sql, LineFeed), KeepLine);
      if kept == [] then Sanitize(sql) == [] else Split(Sanitize(sql), LineFeed) == kept
  {
    var kept := Filter(Split(sql, LineFeed), KeepLine);
    if kept != [] {
      forall i | 0 <= i < |kept| ensures LineFeed !in kept[i] {
        assert kept[i] in Split(sql, LineFeed);
      }
      SplitJoin(kept, LineFeed);
    }
  }

  /** No line of the output is a `USE` line. */
  lemma SanitizeDropsAll(sql: string)
    ensures forall i :: 0 <= i < |Split(Sanitize(sql), LineFeed)| ==> KeepLine(Split(Sanitize(sql), LineFeed)[i])
  {
    SanitizeLines(sql);
    if Sanitize(sql) == [] {
      assert Split(Sanitize(sql), LineFeed) == [[]];
      assert KeepLine([]) by {
        assert Trim([]) == [];
      }
    }
  }

  /** A line that is not a `USE` line occurs in the output as often as in the input. */
  lemma SanitizeKeepsEveryCopy(sql: string, line: string)
    requires KeepLine(line) && line in Split(sql, LineFeed)
    ensures multiset(Split(Sanitize(sql), LineFeed))[line] == multiset(Split(sql, LineFeed))[line]
  {
    FilterCount(Split(sql, LineFeed), KeepLine, line);
    SanitizeLines(sql);
  }

  /** When some line is kept, the output lines are the input lines with some deleted, never edited or reordered. */
  lemma SanitizeIsSubsequence(sql: string)
    requires Filter(Split(sql, LineFeed), KeepLine) != []
    ensures IsSubsequence(Split(Sanitize(sql), LineFeed), Split(sql, LineFeed))
  {
    SanitizeLines(sql);
    FilterIsSubsequence(Split(sql, LineFeed), KeepLine);
  }

  /** Input without a `USE` line is returned unchanged. */
  lemma SanitizeUnchanged(sql: string)
    requires forall i :: 0 <= i < |Split(sql, LineFeed)| ==> !IsUseLine(Split(sql, LineFeed)[i])
    ensures Sanitize(sql) == sql
  {
    FilterUnchanged(Split(sql, LineFeed), KeepLine);
    JoinSplit(sql, LineFeed);
  }

  /** Sanitizing sanitized text changes nothing. */
  lemma SanitizeIdempotent(sql: string)
    ensures Sanitize(Sanitize(sql)) == Sanitize(sql)
  {
    SanitizeLines(sql);
    var kept := Filter(Split(sql, LineFeed), KeepLine);
    if kept == [] {
      assert Split([], LineFeed) == [[]];
      assert KeepLine([]) by {
        assert Trim([]) == [];
      }
      assert Filter([[]], KeepLine) == [[]];
    } else {
      FilterIdempotent(Split(sql, LineFeed), KeepLine);
    }
  }

  // ---------------------------------------------------------------------------
  // Examples

  /** White space up to `k`, then three letters spelling `use` in any case: a `USE` line. */
  lemma UseLineAt(line: string, k: nat)
    requires UseWordAt(line, k) && forall i :: 0 <= i < k ==> IsSpace(line[i])
    ensures IsUseLine(line)
  {
    SpaceEndIs(line, 0, k);
    UseLineSpec(line);
  }

  /** A line whose first character is neither white space nor `u`/`U` is kept. */
  lemma KeepLineOf(line: string)
    requires |line| > 0 && !IsSpace(line[0]) && Upper(line[0]) != 'U'
    ensures KeepLine(line)
  {
    SpaceEndIs(line, 0, 0);
    UseLineSpec(line);
  }

  // The drop test ignores case and indentation and is a prefix test on the
  // raw characters, not a keyword test.

  lemma DropsIndentedLowerCase()
    ensures IsUseLine("  use x;")
  {
    UseLineAt("  use x;", 2);
  }

  lemma DropsMixedCase()
    ensures IsUseLine("Use x")
  {
    UseLineAt("Use x", 0);
  }

  lemma DropsUsersColumn()
    ensures IsUseLine("users.id = 1")
  {
    UseLineAt("users.id = 1", 0);
  }

  lemma DropsUserPrefix()
    ensures IsUseLine("USER...")
  {
    UseLineAt("USER...", 0);
  }

  /** A line that holds `USE` only after its start is kept. */
  lemma KeepsLaterUse()
    ensures KeepLine("SELECT 1; USE x")
  {
    KeepLineOf("SELECT 1; USE x");
  }

  lemma KeepsSelect()
    ensures KeepLine("SELECT * FROM t;")
  {
    KeepLineOf("SELECT * FROM t;");
  }

  lemma DropsUseMydb()
    ensures IsUseLine("USE mydb;")
  {
    UseLineAt("USE mydb;", 0);
  }

  /** A `USE` line followed by a line feed is removed together with that line feed. */
  lemma SanitizeDropsUseLine(use: string, rest: string)
    requires IsUseLine(use) && LineFeed !in use
    ensures Sanitize(use + [LineFeed] + rest) == Sanitize(rest)
  {
    var tail := [LineFeed] + rest;
    assert use + [LineFeed] + rest == use + tail;
    assert tail[1..] == rest;
    assert Split(tail, LineFeed) == [[]] + Split(rest, LineFeed);
    SplitPrefix(use, tail, LineFeed);
    assert use + [] == use;
    assert Split(use + tail, LineFeed) == [use] + Split(rest, LineFeed);
    assert Filter([use] + Split(rest, LineFeed), KeepLine) == Filter(Split(rest, LineFeed), KeepLine);
  }

  /** A `USE` line in front of a one-line query is removed and the query is passed on as it was
      (with `DropsUseMydb` and `KeepsSelect`: "USE mydb;\nSELECT * FROM t;" becomes "SELECT * FROM t;"). */
  lemma SanitizeDropsLeadingUse(use: string, query: string)
    requires IsUseLine(use) && LineFeed !in use
    requires KeepLine(query) && LineFeed !in query
    ensures Sanitize(use + [LineFeed] + query) == query
  {
    SanitizeDropsUseLine(use, query);
    assert Split(query, LineFeed) == [query] by {
      SplitJoin([query], LineFeed);
    }
    SanitizeUnchanged(query);
  }
}
