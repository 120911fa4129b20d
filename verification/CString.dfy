/**
 * Splitting a string at a separator: `substr` of lib/cstring.c, one step with a
 * continuation, and the loop `iter_substr` of includes/cstring.h that drives it. A string
 * is the sequence of its characters before the terminator, none of them NUL; a pointer
 * into the caller's string is an offset.
 */
module CString {
  import opened Common

  const NUL: char := '\0'

  /** `strchr()` from `i` on; searching for NUL finds the terminator. */
  function Find(s: string, needle: char, i: nat): (r: Option<nat>)
    requires i <= |s|
    ensures r.Some? ==> i <= r.value <= |s| && needle !in s[i..r.value]
    ensures r.Some? ==> if r.value == |s| then needle == NUL else s[r.value] == needle
    ensures r.None? ==> needle != NUL && needle !in s[i..]
    decreases |s| - i
  {
    if i == |s| then (if needle == NUL then Some(i) else None)
    else if s[i] == needle then Some(i)
    else Find(s, needle, i + 1)
  }

  /**
   * The piece at offset `h` and the continuation after it: past a separator that is
   * there, or none at the end. A NUL needle is found at the terminator, and its
   * continuation lies outside the string.
   */
  ghost predicate PieceAt(s: string, h: nat, needle: char, p: string, n: Option<nat>) {
    && h + |p| <= |s| && p == s[h..h + |p|] && needle !in p
    && (n.None? ==> needle != NUL && h + |p| == |s|)
    && (n.Some? ==> n.value == h + |p| + 1)
    && (n.Some? && needle != NUL ==> h + |p| < |s| && s[h + |p|] == needle)
    && (needle == NUL ==> h + |p| == |s|)
  }

  /** The continuation stays inside the string exactly when the needle is not NUL. */
  lemma ContinuationInside(s: string, h: nat, needle: char, p: string, n: Option<nat>)
    requires PieceAt(s, h, needle, p, n)
    ensures needle != NUL <==> (n.Some? ==> n.value <= |s|)
  {
  }

  /** Splitting "ab" at NUL: the piece is the whole string and the continuation is offset 3. */
  lemma NulNeedleLeaves()
    ensures PieceAt("ab", 0, NUL, "ab", Some(3)) && 3 > |"ab"|
  {
  }

  /**
   * `substr()`: a copy of the piece from `haystack` up to the needle or the end, and in
   * `*nxt` the place after the needle, or NULL. A NULL haystack leaves `*nxt` as it was, and `stored`
   * says whether `nxt` itself is not NULL.
   */
  method Substr(s: string, haystack: Option<nat>, needle: char, nxt: Option<nat>, stored: bool)
    returns (piece: Option<string>, nxt': Option<nat>)
    requires haystack.Some? ==> haystack.value <= |s|
    requires NUL !in s
    ensures haystack.None? ==> piece == None
    ensures haystack.None? || !stored ==> nxt' == nxt
    ensures haystack.Some? ==> piece.Some? && exists n :: PieceAt(s, haystack.value, needle, piece.value, n)
    ensures haystack.Some? && stored ==> PieceAt(s, haystack.value, needle, piece.value, nxt')
  {
    if haystack.None? {
      return None, nxt;
    }
    var h := haystack.value;
    var n := Find(s, needle, h);
    var len := if n.None? then |s| - h else n.value - h;
    var after := if n.Some? then Some(n.value + 1) else None;
    nxt' := if stored then after else nxt;
    piece := Some(s[h..h + len]);
    assert PieceAt(s, h, needle, piece.value, after);
  }

  // ---------------------------------------------------------------------
  // Splitting and joining whole strings
  // ---------------------------------------------------------------------

  /** The pieces of `s` between separators. */
  function Split(s: string, sep: char): (ps: seq<string>)
    ensures |ps| > 0
    decreases |s|
  {
    if s == [] then [[]]
    else
      var rest := Split(s[1..], sep);
      if s[0] == sep then [[]] + rest else [[s[0]] + rest[0]] + rest[1..]
  }

  function Join(ps: seq<string>, sep: char): string
    requires |ps| > 0
    decreases |ps|
  {
    if |ps| == 1 then ps[0] else ps[0] + [sep] + Join(ps[1..], sep)
  }

  predicate SepFree(ps: seq<string>, sep: char) {
    forall i | 0 <= i < |ps| :: sep !in ps[i]
  }

  /** Splitting loses nothing: the pieces are free of the separator and rejoin to the string. */
  lemma {:induction false} SplitThenJoin(s: string, sep: char)
    ensures SepFree(Split(s, sep), sep)
    ensures Join(Split(s, sep), sep) == s
    decreases |s|
  {
    if s != [] {
      var rest, ps := Split(s[1..], sep), Split(s, sep);
      SplitThenJoin(s[1..], sep);
      if s[0] == sep {
        assert ps[1..] == rest;
        assert Join(ps, sep) == [] + [sep] + Join(rest, sep);
      } else {
        assert ps[1..] == rest[1..];
        if |rest| > 1 {
          assert Join(ps, sep) == ([s[0]] + rest[0]) + [sep] + Join(rest[1..], sep);
          assert Join(ps, sep) == [s[0]] + Join(rest, sep);
        }
      }
    }
  }

  /** A separator-free piece in front of a separator is split off whole. */
  lemma {:induction false} SplitPrefix(p: string, s: string, sep: char)
    requires sep !in p
    ensures Split(p + [sep] + s, sep) == [p] + Split(s, sep)
    decreases |p|
  {
    var whole := p + [sep] + s;
    if p == [] {
      assert whole[1..] == s;
    } else {
      SplitPrefix(p[1..], s, sep);
      assert whole[1..] == p[1..] + [sep] + s;
      assert p == [p[0]] + p[1..];
    }
  }

  lemma {:induction false} SplitLast(p: string, sep: char)
    requires sep !in p
    ensures Split(p, sep) == [p]
    decreases |p|
  {
    if p != [] {
      SplitLast(p[1..], sep);
      assert p == [p[0]] + p[1..];
    }
  }

  /** Joining loses nothing either: separator-free pieces come back one for one. */
  lemma {:induction false} JoinThenSplit(ps: seq<string>, sep: char)
    requires |ps| > 0 && SepFree(ps, sep)
    ensures Split(Join(ps, sep), sep) == ps
    decreases |ps|
  {
    if |ps| == 1 {
      SplitLast(ps[0], sep);
    } else {
      JoinThenSplit(ps[1..], sep);
      SplitPrefix(ps[0], Join(ps[1..], sep), sep);
    }
  }

  /** The pieces still to come at a continuation. */
  ghost function Remaining(s: string, at: Option<nat>, sep: char): seq<string>
    requires at.Some? ==> at.value <= |s|
  {
    if at.None? then [] else Split(s[at.value..], sep)
  }

  lemma PieceSplits(s: string, h: nat, sep: char, p: string, n: Option<nat>)
    requires sep != NUL && PieceAt(s, h, sep, p, n)
    ensures Remaining(s, Some(h), sep) == [p] + Remaining(s, n, sep)
  {
    if n.None? {
      assert s[h..] == p;
      SplitLast(p, sep);
    } else {
      assert s[h..] == p + [sep] + s[n.value..];
      SplitPrefix(p, s[n.value..], sep);
    }
  }

  lemma WholeRemaining(s: string, sep: char)
    ensures Remaining(s, Some(0), sep) == Split(s, sep)
  {
    assert s[0..] == s;
  }

  lemma RemainingNone(s: string, sep: char)
    ensures Remaining(s, None, sep) == []
  {
  }

  /**
   * `iter_substr` over a whole string, with a body that keeps every piece. A NUL separator
   * would carry the continuation past the terminator, so the caller must not pass one.
   */
  method IterSubstr(s: string, h: Option<nat>, sep: char) returns (pieces: seq<string>)
    requires NUL !in s && sep != NUL && (h.Some? ==> h.value <= |s|)
    ensures pieces == Remaining(s, h, sep)
    ensures h == Some(0) ==> pieces == Split(s, sep)
  {
    WholeRemaining(s, sep);
    RemainingNone(s, sep);
    hide Split, Join, Remaining;
    pieces := [];
    ghost var at := h;
    var str, n := Substr(s, h, sep, None, true);
    while str.Some?
      invariant at.None? <==> str.None?
      invariant at.None? ==> n == None
      invariant at.Some? ==> at.value <= |s| && PieceAt(s, at.value, sep, str.value, n)
      invariant Remaining(s, h, sep) == pieces + Remaining(s, at, sep)
      decreases if at.Some? then |s| + 1 - at.value else 0
    {
      PieceSplits(s, at.value, sep, str.value, n);
      pieces := pieces + [str.value];
      at := n;
      str, n := Substr(s, n, sep, n, true);
    }
  }
}
