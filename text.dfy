/**
 * The JavaScript string operations the search page relies on: `trim()`,
 * `split(",")`, `split(/\s+/)`, `startsWith` and `join`, with their
 * JavaScript semantics (a split always yields at least one piece; a
 * separator at either end yields an empty piece).
 */
module Text {

  /** The characters that `String.prototype.trim` removes and that the
      regular-expression class `\s` matches: ECMAScript WhiteSpace
      (tab, vertical tab, form feed, space, no-break space, byte order mark,
      and the Unicode space separators) and LineTerminator. */
  const Whitespace: set<char> := {
    '\t', '\n', '\U{000B}', '\U{000C}', '\r', ' ', '\U{00A0}', '\U{1680}',
    '\U{2000}', '\U{2001}', '\U{2002}', '\U{2003}', '\U{2004}', '\U{2005}',
    '\U{2006}', '\U{2007}', '\U{2008}', '\U{2009}', '\U{200A}',
    '\U{2028}', '\U{2029}', '\U{202F}', '\U{205F}', '\U{3000}', '\U{FEFF}'
  }

  /** Every character of `s` is in `cs`. */
  predicate AllIn(s: string, cs: set<char>) {
    forall i :: 0 <= i < |s| ==> s[i] in cs
  }

  /** No character of `s` is in `cs`. */
  predicate NoneIn(s: string, cs: set<char>) {
    forall i :: 0 <= i < |s| ==> s[i] !in cs
  }

  /** `s` neither starts nor ends with whitespace. */
  predicate Trimmed(s: string) {
    s == [] || (s[0] !in Whitespace && s[|s| - 1] !in Whitespace)
  }

  predicate StartsWith(s: string, prefix: string) {
    prefix <= s
  }

  /** The first index at or after `i` that does not hold whitespace, or
      the length of `s`. */
  function SkipSpace(s: string, i: nat): (j: nat)
    requires i <= |s|
    ensures i <= j <= |s|
    ensures forall k :: i <= k < j ==> s[k] in Whitespace
    ensures j == |s| || s[j] !in Whitespace
    decreases |s| - i
  {
    if i < |s| && s[i] in Whitespace then SkipSpace(s, i + 1) else i
  }

  /** The last index at or before `j` that follows a non-whitespace
      character, or 0. */
  function SkipSpaceBack(s: string, j: nat): (i: nat)
    requires j <= |s|
    ensures i <= j
    ensures forall k :: i <= k < j ==> s[k] in Whitespace
    ensures i == 0 || s[i - 1] !in Whitespace
  {
    if j > 0 && s[j - 1] in Whitespace then SkipSpaceBack(s, j - 1) else j
  }

  /** Drops leading whitespace: the result is the longest suffix of `s`
      that does not start with whitespace, and what was dropped is all
      whitespace. */
  function TrimStart(s: string): (r: string)
    ensures |r| <= |s| && r == s[|s| - |r|..]
    ensures AllIn(s[..|s| - |r|], Whitespace)
    ensures r == [] || r[0] !in Whitespace
  {
    var j := SkipSpace(s, 0);
    assert forall k :: 0 <= k < j ==> s[..j][k] == s[k];
    s[j..]
  }

  /** Drops trailing whitespace: the result is the longest prefix of `s`
      that does not end with whitespace, and what was dropped is all
      whitespace. */
  function TrimEnd(s: string): (r: string)
    ensures |r| <= |s| && r == s[..|r|]
    ensures AllIn(s[|r|..], Whitespace)
    ensures r == [] || r[|r| - 1] !in Whitespace
  {
    var i := SkipSpaceBack(s, |s|);
    assert forall k :: 0 <= k < |s| - i ==> s[i..][k] == s[i + k];
    s[..i]
  }

  /** Leading whitespace is dropped one character at a time. */
  lemma TrimStartStep(s: string)
    requires s != [] && s[0] in Whitespace
    ensures TrimStart(s) == TrimStart(s[1..])
  {
    var r := TrimStart(s);
    var r' := TrimStart(s[1..]);
    var n := |s| - |r|;
    var n' := |s| - 1 - |r'|;
    assert r' == s[n' + 1..];
  }

  /** `String.prototype.trim`: drops whitespace at both ends. */
  function Trim(s: string): (r: string)
    ensures Trimmed(r)
  {
    var t := TrimStart(s);
    var r := TrimEnd(t);
    assert r != [] ==> r[0] == t[0];
    r
  }

  /** The trim is the part of `s` between a whitespace prefix and a
      whitespace suffix. */
  lemma TrimSpec(s: string)
    ensures exists i :: 0 <= i <= |s| - |Trim(s)| && Trim(s) == s[i..i + |Trim(s)|]
                        && AllIn(s[..i], Whitespace) && AllIn(s[i + |Trim(s)|..], Whitespace)
  {
    var t := TrimStart(s);
    var r := TrimEnd(t);
    var i := |s| - |t|;
    assert t == s[i..];
    assert r == s[i..i + |r|];
    assert s[i + |r|..] == t[|r|..];
  }

  /** Trimming yields the empty string exactly when `s` is all whitespace. */
  lemma TrimEmptyIff(s: string)
    ensures Trim(s) == [] <==> AllIn(s, Whitespace)
  {
    var t := TrimStart(s);
    var n := |s| - |t|;
    if Trim(s) == [] {
      assert t == [] by {
        assert t[0..] == t;
      }
      forall k | 0 <= k < |s| ensures s[k] in Whitespace {
        assert s[..n][k] == s[k];
      }
    } else {
      assert t != [] && t[0] == s[n];
    }
  }

  /** A string without whitespace at its ends is its own trim. */
  lemma TrimTrimmed(s: string)
    requires Trimmed(s)
    ensures Trim(s) == s
  {
    assert TrimStart(s) == s;
    assert TrimEnd(s) == s;
  }

  /** A trimmed string is a piece of the original, so it keeps every
      property that all characters of the original share. */
  lemma TrimNoneIn(s: string, cs: set<char>)
    requires NoneIn(s, cs)
    ensures NoneIn(Trim(s), cs)
  {
    var t := TrimStart(s);
    var r := TrimEnd(t);
    assert Trim(s) == r;
    forall k | 0 <= k < |r| ensures r[k] !in cs {
      assert r[k] == t[k] == s[|s| - |t| + k];
    }
  }

  /** Trimming a string drawn from `cs` leaves a string drawn from `cs`. */
  lemma TrimAllIn(s: string, cs: set<char>)
    requires AllIn(s, cs)
    ensures AllIn(Trim(s), cs)
  {
    var t := TrimStart(s);
    var r := TrimEnd(t);
    assert Trim(s) == r;
    forall k | 0 <= k < |r| ensures r[k] in cs {
      assert r[k] == t[k] == s[|s| - |t| + k];
    }
  }

  /** `split` with a single separator character (or, for `seps` the
      whitespace set, a split on every single whitespace character): the
      pieces between separators, from left to right; always at least one
      piece, and no piece contains a separator. */
  function Split(s: string, seps: set<char>): (pieces: seq<string>)
    ensures |pieces| >= 1
  {
    if s == [] then [""]
    else
      var rest := Split(s[1..], seps);
      if s[0] in seps then [""] + rest
      else [[s[0]] + rest[0]] + rest[1..]
  }

  /** No piece contains a separator, and a string without separators is
      its own single piece. */
  lemma {:induction false} SplitSpec(s: string, seps: set<char>)
    ensures forall k :: 0 <= k < |Split(s, seps)| ==> NoneIn(Split(s, seps)[k], seps)
    ensures NoneIn(s, seps) ==> Split(s, seps) == [s]
  {
    if s != [] {
      SplitSpec(s[1..], seps);
      var rest := Split(s[1..], seps);
      var pieces := Split(s, seps);
      if s[0] !in seps {
        forall k | 0 <= k < |pieces| ensures NoneIn(pieces[k], seps) {
          if k == 0 {
            var p := pieces[0];
            assert p == [s[0]] + rest[0];
            forall i | 0 <= i < |p| ensures p[i] !in seps {
              if i > 0 {
                assert p[i] == rest[0][i - 1];
              }
            }
          } else {
            assert pieces[k] == rest[k];
          }
        }
        if NoneIn(s, seps) {
          assert NoneIn(s[1..], seps) by {
            forall i | 0 <= i < |s| - 1 ensures s[1..][i] !in seps {
              assert s[1..][i] == s[i + 1];
            }
          }
          assert s == [s[0]] + s[1..];
        }
      } else {
        forall k | 0 <= k < |pieces| ensures NoneIn(pieces[k], seps) {
          if k > 0 {
            assert pieces[k] == rest[k - 1];
          }
        }
      }
    }
  }

  /** `split(/\s+/)`: like Split on whitespace, but a run of whitespace is a
      single separator. */
  function SplitRuns(s: string): (pieces: seq<string>)
    ensures |pieces| >= 1
    decreases |s|
  {
    if s == [] then [""]
    else if s[0] in Whitespace then [""] + SplitRuns(TrimStart(s[1..]))
    else
      var rest := SplitRuns(s[1..]);
      [[s[0]] + rest[0]] + rest[1..]
  }

  /** `pieces.join(sep)`. */
  function Join(pieces: seq<string>, sep: char): string
  {
    if pieces == [] then ""
    else if |pieces| == 1 then pieces[0]
    else pieces[0] + [sep] + Join(pieces[1..], sep)
  }

  /** Splitting distributes over a separator: the pieces of `a + sep + b`
      are the pieces of `a` followed by the pieces of `b`. */
  lemma {:induction false} SplitConcat(a: string, sep: char, b: string, seps: set<char>)
    requires sep in seps
    ensures Split(a + [sep] + b, seps) == Split(a, seps) + Split(b, seps)
  {
    if a == [] {
      assert a + [sep] + b == [sep] + b;
      assert ([sep] + b)[1..] == b;
    } else {
      var s := a + [sep] + b;
      assert s[1..] == a[1..] + [sep] + b;
      assert s[0] == a[0];
      SplitConcat(a[1..], sep, b, seps);
      var ra := Split(a[1..], seps);
      var r := Split(s[1..], seps);
      assert r == ra + Split(b, seps);
      if a[0] in seps {
        assert Split(s, seps) == [""] + r;
        assert Split(a, seps) == [""] + ra;
      } else {
        var lhs := Split(s, seps);
        var pa := Split(a, seps);
        var rhs := pa + Split(b, seps);
        assert lhs == [[a[0]] + r[0]] + r[1..];
        assert pa == [[a[0]] + ra[0]] + ra[1..];
        assert |lhs| == |rhs|;
        forall k | 0 <= k < |lhs| ensures lhs[k] == rhs[k] {
          if k > 0 {
            assert lhs[k] == r[k];
          }
        }
      }
    }
  }

  /** Joining the pieces of a split restores the string. */
  lemma {:induction false} JoinSplit(s: string, sep: char)
    ensures Join(Split(s, {sep}), sep) == s
  {
    if s != [] {
      JoinSplit(s[1..], sep);
      var rest := Split(s[1..], {sep});
      if s[0] == sep {
        assert Split(s, {sep}) == [""] + rest;
        if |rest| == 1 {
          assert Join(rest, sep) == rest[0];
        } else {
          assert Join(rest, sep) == rest[0] + [sep] + Join(rest[1..], sep);
        }
        assert s == [sep] + s[1..];
      } else {
        var p := Split(s, {sep});
        assert p == [[s[0]] + rest[0]] + rest[1..];
        if |rest| == 1 {
          assert s == [s[0]] + s[1..];
        } else {
          assert p[1..] == rest[1..];
          assert Join(rest, sep) == rest[0] + [sep] + Join(rest[1..], sep);
          assert s == [s[0]] + s[1..];
        }
      }
    }
  }

  /** Splitting a join of separator-free pieces gives the pieces back. */
  lemma {:induction false} SplitJoin(pieces: seq<string>, sep: char, seps: set<char>)
    requires sep in seps && |pieces| >= 1
    requires forall k :: 0 <= k < |pieces| ==> NoneIn(pieces[k], seps)
    ensures Split(Join(pieces, sep), seps) == pieces
  {
    SplitSpec(pieces[0], seps);
    if |pieces| > 1 {
      SplitJoin(pieces[1..], sep, seps);
      SplitConcat(pieces[0], sep, Join(pieces[1..], sep), seps);
      assert pieces == [pieces[0]] + pieces[1..];
    }
  }

  /** Every character of `[c] + t` is in `cs` exactly when `c` and every character of `t` are. */
  lemma AllInCons(c: char, t: string, cs: set<char>)
    ensures AllIn([c] + t, cs) <==> c in cs && AllIn(t, cs)
  {
    var u := [c] + t;
    assert u[0] == c;
    assert forall k :: 0 < k < |u| ==> u[k] == t[k - 1];
    if c in cs && AllIn(t, cs) {
      forall k | 0 <= k < |u| ensures u[k] in cs {
        if k > 0 { assert u[k] == t[k - 1]; }
      }
    }
    if AllIn(u, cs) {
      forall k | 0 <= k < |t| ensures t[k] in cs {
        assert t[k] == u[k + 1];
      }
    }
  }

  /** Every string of `p` consists of `cs` characters. */
  predicate PiecesIn(p: seq<string>, cs: set<char>) {
    forall k :: 0 <= k < |p| ==> AllIn(p[k], cs)
  }

  lemma PiecesInCons(x: string, p: seq<string>, cs: set<char>)
    ensures PiecesIn([x] + p, cs) <==> AllIn(x, cs) && PiecesIn(p, cs)
  {
    var q := [x] + p;
    assert q[0] == x;
    assert forall k :: 0 < k < |q| ==> q[k] == p[k - 1];
    if PiecesIn(p, cs) && AllIn(x, cs) {
      forall k | 0 <= k < |q| ensures AllIn(q[k], cs) {
        if k > 0 { assert q[k] == p[k - 1]; }
      }
    }
    if PiecesIn(q, cs) {
      forall k | 0 <= k < |p| ensures AllIn(p[k], cs) {
        assert p[k] == q[k + 1];
      }
    }
  }

  /** Every piece of a split consists of `cs` characters exactly when the
      string consists of separators and `cs` characters. */
  lemma {:induction false} SplitPiecesAllIn(s: string, seps: set<char>, cs: set<char>)
    ensures PiecesIn(Split(s, seps), cs) <==> AllIn(s, seps + cs)
  {
    if s != [] {
      SplitPiecesAllIn(s[1..], seps, cs);
      var rest := Split(s[1..], seps);
      var p := Split(s, seps);
      assert s == [s[0]] + s[1..];
      AllInCons(s[0], s[1..], seps + cs);
      if s[0] in seps {
        assert p == [""] + rest;
        assert forall k :: 0 < k < |p| ==> p[k] == rest[k - 1];
        assert AllIn(p[0], cs);
        PiecesInCons(p[0], rest, cs);
      } else {
        assert p == [[s[0]] + rest[0]] + rest[1..];
        assert forall k :: 0 < k < |p| ==> p[k] == rest[k];
        AllInCons(s[0], rest[0], cs);
        PiecesInCons(p[0], rest[1..], cs);
        PiecesInCons(rest[0], rest[1..], cs);
        assert rest == [rest[0]] + rest[1..];
      }
    }
  }

  /** `filter(Boolean)` on a list of strings: the non-empty ones, in order. */
  function DropEmpty(xs: seq<string>): (r: seq<string>)
    ensures forall k :: 0 <= k < |r| ==> r[k] != "" && r[k] in xs
    ensures r == [] <==> forall k :: 0 <= k < |xs| ==> xs[k] == ""
  {
    if xs == [] then []
    else
      assert forall k :: 0 < k < |xs| ==> xs[k] == xs[1..][k - 1];
      (if xs[0] == "" then [] else [xs[0]]) + DropEmpty(xs[1..])
  }

  /** Dropping empty strings distributes over concatenation. */
  lemma {:induction false} DropEmptyConcat(a: seq<string>, b: seq<string>)
    ensures DropEmpty(a + b) == DropEmpty(a) + DropEmpty(b)
  {
    if a != [] {
      var ab := a + b;
      assert ab[0] == a[0];
      assert ab[1..] == a[1..] + b;
      DropEmptyConcat(a[1..], b);
      var head := if a[0] == "" then [] else [a[0]];
      var da := DropEmpty(a[1..]);
      var db := DropEmpty(b);
      assert DropEmpty(ab) == head + (da + db);
      assert DropEmpty(a) == head + da;
      assert head + (da + db) == (head + da) + db;
    } else {
      assert a + b == b;
    }
  }

  /** Leading whitespace only adds empty pieces to a whitespace split. */
  lemma {:induction false} SplitLeadingSpace(s: string)
    ensures DropEmpty(Split(s, Whitespace)) == DropEmpty(Split(TrimStart(s), Whitespace))
  {
    if s != [] && s[0] in Whitespace {
      TrimStartStep(s);
      SplitLeadingSpace(s[1..]);
      assert Split(s, Whitespace) == [""] + Split(s[1..], Whitespace);
    }
  }

  /** The first piece of `split(/\s+/)` is the first piece of a split on
      single whitespace characters: the leading run of non-whitespace. */
  lemma {:induction false} SplitRunsFirst(s: string)
    ensures SplitRuns(s)[0] == Split(s, Whitespace)[0]
  {
    if s != [] && s[0] !in Whitespace {
      SplitRunsFirst(s[1..]);
    }
  }

  /** Once empty pieces are dropped, `split(/\s+/)` and a split on every
      single whitespace character give the same words. */
  lemma {:induction false} SplitRunsWords(s: string)
    ensures DropEmpty(SplitRuns(s)) == DropEmpty(Split(s, Whitespace))
    decreases |s|
  {
    if s == [] {
    } else if s[0] in Whitespace {
      var t := TrimStart(s[1..]);
      SplitRunsWords(t);
      SplitLeadingSpace(s[1..]);
      assert SplitRuns(s) == [""] + SplitRuns(t);
      assert Split(s, Whitespace) == [""] + Split(s[1..], Whitespace);
    } else {
      SplitRunsWords(s[1..]);
      SplitRunsFirst(s[1..]);
      var rr := SplitRuns(s[1..]);
      var rs := Split(s[1..], Whitespace);
      assert rr == [rr[0]] + rr[1..];
      assert rs == [rs[0]] + rs[1..];
      DropEmptyConcat([rr[0]], rr[1..]);
      DropEmptyConcat([rs[0]], rs[1..]);
      var head := DropEmpty([rr[0]]);
      assert head == DropEmpty([rs[0]]);
      assert DropEmpty(rr[1..]) == (head + DropEmpty(rr[1..]))[|head|..];
      assert DropEmpty(rs[1..]) == (head + DropEmpty(rs[1..]))[|head|..];
      var w := [s[0]] + rr[0];
      assert SplitRuns(s) == [w] + rr[1..];
      assert Split(s, Whitespace) == [w] + rs[1..];
      DropEmptyConcat([w], rr[1..]);
      DropEmptyConcat([w], rs[1..]);
    }
  }
}
