/**
 * Array and string operations the selection code relies on:
 * `a.filter(el => el !== k)`, counting occurrences, and
 * `String.prototype.split` / `Array.prototype.join` on a one-character
 * separator.
 */
module JsArrays {
  predicate Distinct(s: seq<string>) {
    forall i, j :: 0 <= i < j < |s| ==> s[i] != s[j]
  }

  /** `s.filter(el => el !== k)`: `s` without `k`, the rest in order. */
  function Remove(s: seq<string>, k: string): (r: seq<string>)
    ensures forall x :: x in r <==> x in s && x != k
  {
    if s == [] then []
    else
      var init, last := s[..|s| - 1], s[|s| - 1];
      assert forall x :: x in s <==> x in init || x == last;
      Remove(init, k) + if last == k then [] else [last]
  }

  /** The filter commutes with concatenation, so the kept elements stay in order even with repeats. */
  lemma {:induction false} RemoveAppend(a: seq<string>, b: seq<string>, k: string)
    ensures Remove(a + b, k) == Remove(a, k) + Remove(b, k)
  {
    if b == [] {
      assert a + b == a;
    } else {
      var init, last := b[..|b| - 1], b[|b| - 1];
      assert (a + b)[..|a + b| - 1] == a + init;
      RemoveAppend(a, init, k);
    }
  }

  lemma {:induction false} RemoveAbsent(s: seq<string>, k: string)
    requires k !in s
    ensures Remove(s, k) == s
  {
    if s != [] {
      RemoveAbsent(s[..|s| - 1], k);
      assert s == s[..|s| - 1] + [s[|s| - 1]];
    }
  }

  /** In a duplicate-free sequence, removing an element cuts out its one position. */
  lemma {:induction false} RemoveAt(s: seq<string>, i: int)
    requires Distinct(s) && 0 <= i < |s|
    ensures Remove(s, s[i]) == s[..i] + s[i + 1..]
  {
    var init, last := s[..|s| - 1], s[|s| - 1];
    assert s == init + [last];
    if i == |s| - 1 {
      RemoveAbsent(init, s[i]);
    } else {
      RemoveAt(init, i);
      assert s[..i] == init[..i];
      assert s[i + 1..] == init[i + 1..] + [last];
    }
  }

  /** How many times `k` occurs in `s`. */
  function Count(s: seq<string>, k: string): nat {
    if s == [] then 0 else Count(s[..|s| - 1], k) + if s[|s| - 1] == k then 1 else 0
  }

  lemma CountSnoc(s: seq<string>, x: string, k: string)
    ensures Count(s + [x], k) == Count(s, k) + if x == k then 1 else 0
  {
    assert (s + [x])[..|s|] == s;
  }

  /** Removing `k` drops all of its occurrences and keeps the count of every other element. */
  lemma {:induction false} RemoveCounts(s: seq<string>, k: string, x: string)
    ensures Count(Remove(s, k), x) == if x == k then 0 else Count(s, x)
  {
    if s != [] {
      var init, last := s[..|s| - 1], s[|s| - 1];
      RemoveCounts(init, k, x);
      assert Count(s, x) == Count(init, x) + if last == x then 1 else 0;
      if last != k {
        assert Remove(s, k) == Remove(init, k) + [last];
        CountSnoc(Remove(init, k), last, x);
      } else {
        assert Remove(s, k) == Remove(init, k);
      }
    }
  }

  /** `s.split(sep)`: the pieces between separators; the empty string gives one empty piece. */
  function Split(s: string, sep: char): (pieces: seq<string>)
    ensures |pieces| > 0
  {
    if s == [] then [[]]
    else
      var init, c := s[..|s| - 1], s[|s| - 1];
      var ps := Split(init, sep);
      if c == sep then ps + [[]] else ps[..|ps| - 1] + [ps[|ps| - 1] + [c]]
  }

  /** `pieces.join(sep)` */
  function Join(pieces: seq<string>, sep: char): string {
    if pieces == [] then []
    else if |pieces| == 1 then pieces[0]
    else Join(pieces[..|pieces| - 1], sep) + [sep] + pieces[|pieces| - 1]
  }

  lemma {:induction false} SplitPiece(prefix: string, sep: char, piece: string)
    requires sep !in piece
    ensures Split(prefix + [sep] + piece, sep) == Split(prefix, sep) + [piece]
  {
    var s := prefix + [sep] + piece;
    if piece == [] {
      assert s[..|s| - 1] == prefix && s[|s| - 1] == sep;
    } else {
      var init, c := piece[..|piece| - 1], piece[|piece| - 1];
      assert c in piece;
      assert piece == init + [c];
      SplitPiece(prefix, sep, init);
      assert s[..|s| - 1] == prefix + [sep] + init && s[|s| - 1] == c;
    }
  }

  lemma {:induction false} SplitNoSeparator(piece: string, sep: char)
    requires sep !in piece
    ensures Split(piece, sep) == [piece]
  {
    if piece != [] {
      SplitNoSeparator(piece[..|piece| - 1], sep);
      assert piece == piece[..|piece| - 1] + [piece[|piece| - 1]];
    }
  }

  /** Splitting a join of separator-free pieces gives the pieces back. */
  lemma {:induction false} SplitJoin(pieces: seq<string>, sep: char)
    requires pieces != []
    requires forall p :: p in pieces ==> sep !in p
    ensures Split(Join(pieces, sep), sep) == pieces
  {
    if |pieces| == 1 {
      assert pieces[0] in pieces;
      SplitNoSeparator(pieces[0], sep);
    } else {
      var init, last := pieces[..|pieces| - 1], pieces[|pieces| - 1];
      assert pieces == init + [last];
      SplitJoin(init, sep);
      SplitPiece(Join(init, sep), sep, last);
    }
  }
}
