/** `String.prototype.split` of JavaScript with a non-empty string separator:
    the string is cut at every leftmost, non-overlapping occurrence of the
    separator, and an absent separator leaves one piece, the whole string.
    `Join` puts the pieces back together. */
module JsString {

  /** `sep` occurs in `s` starting at index `i`. */
  predicate OccursAt(s: string, sep: string, i: int)
  {
    0 <= i && i + |sep| <= |s| && s[i..i + |sep|] == sep
  }

  predicate Occurs(s: string, sep: string)
  {
    exists i :: 0 <= i <= |s| && OccursAt(s, sep, i)
  }

  function Split(s: string, sep: string): (pieces: seq<string>)
    requires |sep| > 0
    ensures |pieces| >= 1
    decreases |s|
  {
    if |s| < |sep| then [s]
    else if s[..|sep|] == sep then [""] + Split(s[|sep|..], sep)
    else
      var rest := Split(s[1..], sep);
      [[s[0]] + rest[0]] + rest[1..]
  }

  function Join(pieces: seq<string>, sep: string): (s: string)
    requires |pieces| >= 1
    ensures pieces[0] <= s
  {
    if |pieces| == 1 then pieces[0] else pieces[0] + sep + Join(pieces[1..], sep)
  }

  /** Putting a character in front of the first piece puts it in front of
      the joined string. */
  lemma JoinCons(c: char, pieces: seq<string>, sep: string)
    requires |pieces| >= 1
    ensures Join([[c] + pieces[0]] + pieces[1..], sep) == [c] + Join(pieces, sep)
  {
  }

  /** Joining the pieces with the separator gives the string back. */
  lemma {:induction false} JoinSplit(s: string, sep: string)
    requires |sep| > 0
    ensures Join(Split(s, sep), sep) == s
    decreases |s|
  {
    if |s| < |sep| {
    } else if s[..|sep|] == sep {
      var tail := Split(s[|sep|..], sep);
      JoinSplit(s[|sep|..], sep);
      var pieces := [""] + tail;
      assert pieces == Split(s, sep);
      assert pieces[1..] == tail;
      assert Join(pieces, sep) == "" + sep + Join(tail, sep);
      assert s == s[..|sep|] + s[|sep|..];
    } else {
      var rest := Split(s[1..], sep);
      JoinSplit(s[1..], sep);
      assert Split(s, sep) == [[s[0]] + rest[0]] + rest[1..];
      JoinCons(s[0], rest, sep);
      assert s == [s[0]] + s[1..];
    }
  }

  /** The last piece of a join is preceded by the separator. */
  lemma {:induction false} JoinLast(pieces: seq<string>, sep: string)
    requires |pieces| >= 2
    ensures Join(pieces, sep) == Join(pieces[..|pieces| - 1], sep) + sep + pieces[|pieces| - 1]
    decreases |pieces|
  {
    if |pieces| > 2 {
      var tail := pieces[1..];
      JoinLast(tail, sep);
      assert tail[..|tail| - 1] == pieces[..|pieces| - 1][1..];
      assert tail[|tail| - 1] == pieces[|pieces| - 1];
    }
  }

  /** None of `pieces` contains the separator. */
  predicate PiecesFree(pieces: seq<string>, sep: string)
  {
    forall k :: 0 <= k < |pieces| ==> !Occurs(pieces[k], sep)
  }

  /** A separator-free string extended by one character in front stays
      separator-free when the extended string does not start with the
      separator. */
  lemma ConsFree(s: string, sep: string, rest0: string)
    requires |sep| <= |s| && s[..|sep|] != sep
    requires rest0 <= s[1..] && !Occurs(rest0, sep)
    ensures !Occurs([s[0]] + rest0, sep)
  {
    var first := [s[0]] + rest0;
    assert first <= s;
    assert first[1..] == rest0;
    forall j | 0 <= j <= |first| ensures !OccursAt(first, sep, j) {
      if j == 0 {
        if |sep| <= |first| {
          assert first[..|sep|] == s[..|sep|];
        }
      } else if j + |sep| <= |first| {
        assert first[j..j + |sep|] == rest0[j - 1..j - 1 + |sep|];
        assert !OccursAt(rest0, sep, j - 1);
      }
    }
  }

  /** No piece contains the separator. */
  lemma {:induction false} SplitPiecesFree(s: string, sep: string)
    requires |sep| > 0
    ensures PiecesFree(Split(s, sep), sep)
    decreases |s|
  {
    var pieces := Split(s, sep);
    if |s| < |sep| {
      assert pieces == [s];
    } else if s[..|sep|] == sep {
      var tail := Split(s[|sep|..], sep);
      SplitPiecesFree(s[|sep|..], sep);
      assert pieces == [""] + tail;
      assert !Occurs("", sep);
      forall k | 0 < k < |pieces| ensures !Occurs(pieces[k], sep) {
        assert pieces[k] == tail[k - 1];
      }
    } else {
      var rest := Split(s[1..], sep);
      SplitPiecesFree(s[1..], sep);
      JoinSplit(s[1..], sep);
      ConsFree(s, sep, rest[0]);
      assert pieces == [[s[0]] + rest[0]] + rest[1..];
      forall k | 0 < k < |pieces| ensures !Occurs(pieces[k], sep) {
        assert pieces[k] == rest[k];
      }
    }
  }

  /** Exactly one piece comes out if and only if the separator is absent. */
  lemma SplitSingleIff(s: string, sep: string)
    requires |sep| > 0
    ensures |Split(s, sep)| == 1 <==> !Occurs(s, sep)
  {
    var pieces := Split(s, sep);
    JoinSplit(s, sep);
    SplitPiecesFree(s, sep);
    if |pieces| == 1 {
      assert s == pieces[0];
    } else {
      var tail := Join(pieces[1..], sep);
      assert s == pieces[0] + sep + tail;
      assert s[|pieces[0]|..|pieces[0]| + |sep|] == sep;
      assert OccursAt(s, sep, |pieces[0]|);
    }
  }

  /** In a join of several pieces the last piece is a suffix, right after a
      separator. */
  lemma JoinLastSuffix(pieces: seq<string>, sep: string)
    requires |pieces| >= 2
    ensures var s := Join(pieces, sep);
            var r := pieces[|pieces| - 1];
            && |r| + |sep| <= |s| && r == s[|s| - |r|..]
            && OccursAt(s, sep, |s| - |r| - |sep|)
  {
    var r := pieces[|pieces| - 1];
    JoinLast(pieces, sep);
    var init := Join(pieces[..|pieces| - 1], sep);
    var s := init + sep + r;
    assert s[|s| - |r|..] == r;
    assert s[|init|..|init| + |sep|] == sep;
  }

  /** The last piece is a separator-free suffix of the string; when there is
      more than one piece, the separator sits right before it. */
  lemma LastPiece(s: string, sep: string)
    requires |sep| > 0
    ensures var pieces := Split(s, sep);
            var r := pieces[|pieces| - 1];
            && |r| <= |s| && r == s[|s| - |r|..]
            && !Occurs(r, sep)
            && (|pieces| == 1 <==> r == s)
            && (|pieces| >= 2 ==> OccursAt(s, sep, |s| - |r| - |sep|))
  {
    var pieces := Split(s, sep);
    JoinSplit(s, sep);
    SplitPiecesFree(s, sep);
    SplitSingleIff(s, sep);
    if |pieces| >= 2 {
      JoinLastSuffix(pieces, sep);
    }
  }

  /** A single-character separator occurs exactly where that character does. */
  lemma OccursChar(s: string, c: char)
    ensures Occurs(s, [c]) <==> c in s
  {
    if c in s {
      var i :| 0 <= i < |s| && s[i] == c;
      assert s[i..i + 1] == [c];
      assert OccursAt(s, [c], i);
    }
    if Occurs(s, [c]) {
      var i :| 0 <= i <= |s| && OccursAt(s, [c], i);
      assert s[i] == s[i..i + 1][0];
    }
  }

  /** With a one-character separator, a separator-free head is the first
      piece and splitting goes on after the separator. */
  lemma {:induction false} SplitAfterHead(a: string, c: char, b: string)
    requires c !in a
    ensures Split(a + [c] + b, [c]) == [a] + Split(b, [c])
    decreases |a|
  {
    var s := a + [c] + b;
    if a == [] {
      assert s == [c] + b;
      assert s[..1] == [c];
      assert s[1..] == b;
    } else {
      assert s[..1] == [a[0]];
      assert s[1..] == a[1..] + [c] + b;
      SplitAfterHead(a[1..], c, b);
      assert [a[0]] + a[1..] == a;
    }
  }

  /** A string without the separator is split into itself. */
  lemma SplitWithout(s: string, sep: string)
    requires |sep| > 0
    requires !Occurs(s, sep)
    ensures Split(s, sep) == [s]
  {
    SplitSingleIff(s, sep);
    JoinSplit(s, sep);
  }

  /** An occurrence that starts at or after `k` is an occurrence in `s[k..]`. */
  lemma OccursInSuffix(s: string, sep: string, k: int, i: int)
    ensures 0 <= k <= |s| && OccursAt(s, sep, i) && k <= i ==> OccursAt(s[k..], sep, i - k)
  {
  }

  /** Occurrences in `s[1..]` are the occurrences in `s` after its first
      character, shifted by one. */
  lemma OccursTail(s: string, sep: string, i: int)
    requires |s| >= 1 && i >= 1
    ensures OccursAt(s, sep, i) <==> OccursAt(s[1..], sep, i - 1)
  {
    if i + |sep| <= |s| {
      assert s[i..i + |sep|] == s[1..][i - 1..i - 1 + |sep|];
    }
  }

  /** The first cut is at the leftmost occurrence of the separator: with
      several pieces the separator occurs right after the first piece and
      nowhere before. */
  lemma {:induction false} SplitLeftmost(s: string, sep: string)
    requires |sep| > 0
    ensures var pieces := Split(s, sep);
            |pieces| >= 2 ==>
              && OccursAt(s, sep, |pieces[0]|)
              && forall i :: 0 <= i < |pieces[0]| ==> !OccursAt(s, sep, i)
    decreases |s|
  {
    var pieces := Split(s, sep);
    if |s| >= |sep| && s[..|sep|] != sep {
      var rest := Split(s[1..], sep);
      SplitLeftmost(s[1..], sep);
      assert pieces == [[s[0]] + rest[0]] + rest[1..];
      if |pieces| >= 2 {
        OccursTail(s, sep, |pieces[0]|);
        forall i | 0 <= i < |pieces[0]| ensures !OccursAt(s, sep, i) {
          if i >= 1 {
            OccursTail(s, sep, i);
          }
        }
      }
    }
  }
}
