/** Models of the two `str` operations the helpers rely on: `split` on one
    character and `contains` of a pattern, with `join` as the inverse of
    `split`. Strings are sequences of characters. */
module RustStr {

  /** Number of occurrences of `c` in `s`. */
  function Count(s: string, c: char): (n: nat)
    ensures n <= |s|
  {
    if s == [] then 0 else (if s[0] == c then 1 else 0) + Count(s[1..], c)
  }

  /** `s.split(sep)`: the pieces between occurrences of `sep`. As in Rust, the
      empty string splits into one empty piece and a trailing separator
      yields a trailing empty piece. */
  function Split(s: string, sep: char): (pieces: seq<string>)
    ensures |pieces| == Count(s, sep) + 1
    ensures forall i :: 0 <= i < |pieces| ==> sep !in pieces[i]
  {
    if s == [] then [""]
    else
      var rest := Split(s[1..], sep);
      if s[0] == sep then [""] + rest
      else [[s[0]] + rest[0]] + rest[1..]
  }

  /** `pieces.join(sep)` for a non-empty list of pieces. */
  function Join(pieces: seq<string>, sep: char): (s: string)
    requires |pieces| > 0
    ensures |s| == TotalLength(pieces) + |pieces| - 1
  {
    if |pieces| == 1 then pieces[0]
    else pieces[0] + [sep] + Join(pieces[1..], sep)
  }

  /** Sum of the lengths of `pieces`. */
  function TotalLength(pieces: seq<string>): nat
  {
    if pieces == [] then 0 else |pieces[0]| + TotalLength(pieces[1..])
  }

  /** Joining a list with a first piece in front. */
  lemma JoinCons(p: string, ps: seq<string>, sep: char)
    requires |ps| > 0
    ensures Join([p] + ps, sep) == p + [sep] + Join(ps, sep)
  {
    assert ([p] + ps)[1..] == ps;
  }

  /** Joining the pieces of a split gives back the original string. */
  lemma {:induction false} JoinSplit(s: string, sep: char)
    ensures Join(Split(s, sep), sep) == s
  {
    if s != [] {
      var rest := Split(s[1..], sep);
      JoinSplit(s[1..], sep);
      assert s == [s[0]] + s[1..];
      if s[0] == sep {
        assert Split(s, sep) == [""] + rest;
        JoinCons("", rest, sep);
        assert Join(Split(s, sep), sep) == [sep] + Join(rest, sep);
      } else if |rest| == 1 {
        assert Split(s, sep) == [[s[0]] + rest[0]];
        assert Join(rest, sep) == rest[0];
      } else {
        var tail := Join(rest[1..], sep);
        var pieces := [[s[0]] + rest[0]] + rest[1..];
        assert Split(s, sep) == pieces;
        JoinCons([s[0]] + rest[0], rest[1..], sep);
        assert Join(pieces, sep) == ([s[0]] + rest[0]) + [sep] + tail;
        assert ([s[0]] + rest[0]) + [sep] + tail == [s[0]] + (rest[0] + [sep] + tail);
        assert rest == [rest[0]] + rest[1..];
        JoinCons(rest[0], rest[1..], sep);
        assert Join(Split(s, sep), sep) == [s[0]] + (rest[0] + [sep] + tail);
      }
    }
  }

  /** Splitting a join recovers the pieces, provided no piece holds the
      separator: split and join are inverse on separator-free lists. */
  lemma {:induction false} SplitJoin(pieces: seq<string>, sep: char)
    requires |pieces| > 0
    requires forall i :: 0 <= i < |pieces| ==> sep !in pieces[i]
    ensures Split(Join(pieces, sep), sep) == pieces
  {
    if |pieces| == 1 {
      SplitNoSep(pieces[0], sep);
    } else {
      SplitJoin(pieces[1..], sep);
      SplitPrefix(pieces[0], Join(pieces[1..], sep), sep);
      assert pieces[0] + [sep] + Join(pieces[1..], sep)
          == pieces[0] + ([sep] + Join(pieces[1..], sep));
      assert [pieces[0]] + pieces[1..] == pieces;
    }
  }

  /** A string without the separator splits into itself. */
  lemma {:induction false} SplitNoSep(s: string, sep: char)
    requires sep !in s
    ensures Split(s, sep) == [s]
  {
    if s != [] {
      SplitNoSep(s[1..], sep);
      assert s[0] != sep;
      assert [s[0]] + s[1..] == s;
    }
  }

  /** Splitting `w + [sep] + t` with `w` free of the separator puts `w` in
      front of the split of `t`. */
  lemma {:induction false} SplitPrefix(w: string, t: string, sep: char)
    requires sep !in w
    ensures Split(w + ([sep] + t), sep) == [w] + Split(t, sep)
  {
    if w != [] {
      SplitPrefix(w[1..], t, sep);
      assert (w + ([sep] + t))[1..] == w[1..] + ([sep] + t);
      assert [w[0]] + w[1..] == w;
    } else {
      assert w + ([sep] + t) == [sep] + t;
      assert ([sep] + t)[1..] == t;
    }
  }

  /** `s.contains(pat)`, searched from the left. */
  function Contains(s: string, pat: string): bool
  {
    pat <= s || (s != [] && Contains(s[1..], pat))
  }

  /** `pat` occurs in `s` at position `i`. */
  ghost predicate OccursAt(s: string, pat: string, i: int)
  {
    0 <= i && i + |pat| <= |s| && s[i..i + |pat|] == pat
  }

  /** An occurrence at position `i` is found by the search. */
  lemma {:induction false} OccurrenceFound(s: string, pat: string, i: nat)
    requires OccursAt(s, pat, i)
    ensures Contains(s, pat)
    decreases i
  {
    if i == 0 {
      assert s[..|pat|] == s[0..|pat|];
      assert pat <= s;
    } else {
      assert s[1..][i - 1..i - 1 + |pat|] == s[i..i + |pat|];
      OccurrenceFound(s[1..], pat, i - 1);
    }
  }

  /** What the search finds is an occurrence. */
  lemma {:induction false} FoundOccurs(s: string, pat: string) returns (i: nat)
    requires Contains(s, pat)
    ensures OccursAt(s, pat, i)
    decreases |s|
  {
    if pat <= s {
      assert s[0..|pat|] == s[..|pat|];
      i := 0;
    } else {
      var j := FoundOccurs(s[1..], pat);
      assert s[1..][j..j + |pat|] == s[j + 1..j + 1 + |pat|];
      i := j + 1;
    }
  }

  /** The search agrees with the definition of a substring, both ways. */
  lemma ContainsIff(s: string, pat: string)
    ensures Contains(s, pat) <==> exists i :: OccursAt(s, pat, i)
  {
    if Contains(s, pat) {
      var i := FoundOccurs(s, pat);
    }
    if exists i :: OccursAt(s, pat, i) {
      var i :| OccursAt(s, pat, i);
      OccurrenceFound(s, pat, i);
    }
  }
}
