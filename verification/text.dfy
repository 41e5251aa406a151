/**
 The string primitives the ticket handlers rely on, restricted to ASCII:
 Python's `str.lower()`, `str.strip()`, slicing `s[:n]` and `str.split(sep)`
 with a one-character separator.
 */
module Text {

  function Min(a: int, b: int): int
  {
    if a <= b then a else b
  }

  /* Python's `str.isspace` on ASCII: tab, line feed, vertical tab, form feed,
     carriage return (9-13), the four information separators (28-31) and space. */
  predicate IsSpace(c: char)
  {
    (9 <= c as int <= 13) || (28 <= c as int <= 32)
  }

  predicate AllSpace(s: string)
  {
    forall i :: 0 <= i < |s| ==> IsSpace(s[i])
  }

  /* ----------------------------------------------------------------------- */
  /* Lower-casing                                                            */
  /* ----------------------------------------------------------------------- */

  function LowerChar(c: char): char
  {
    if 'A' <= c <= 'Z' then (c as int + 32) as char else c
  }

  /* Python's `str.lower()` on ASCII: letters A-Z map to a-z, all else is kept. */
  function Lower(s: string): (r: string)
    ensures |r| == |s|
    ensures forall i :: 0 <= i < |r| ==> !('A' <= r[i] <= 'Z')
    ensures forall i :: 0 <= i < |s| && !('A' <= s[i] <= 'Z') ==> r[i] == s[i]
    ensures forall i :: 0 <= i < |s| && 'A' <= s[i] <= 'Z' ==>
              'a' <= r[i] <= 'z' && r[i] as int - s[i] as int == 'a' as int - 'A' as int
  {
    seq(|s|, i requires 0 <= i < |s| => LowerChar(s[i]))
  }

  lemma LowerConcat(a: string, b: string)
    ensures Lower(a + b) == Lower(a) + Lower(b)
  {
    assert forall i :: 0 <= i < |a + b| ==> Lower(a + b)[i] == (Lower(a) + Lower(b))[i];
  }

  /* A character that is not an ASCII letter keeps its place under `lower()`,
     so the '.' positions survive. */
  lemma LowerKeepsChar(s: string, c: char)
    requires !('A' <= c <= 'Z') && !('a' <= c <= 'z')
    ensures c in Lower(s) <==> c in s
  {
    if c in s {
      var i :| 0 <= i < |s| && s[i] == c;
      assert Lower(s)[i] == c;
    }
  }

  /* ----------------------------------------------------------------------- */
  /* Stripping                                                               */
  /* ----------------------------------------------------------------------- */

  function StripLeft(s: string): (r: string)
    ensures |r| <= |s| && r == s[|s| - |r|..]
    ensures forall k :: 0 <= k < |s| - |r| ==> IsSpace(s[k])
    ensures |r| > 0 ==> !IsSpace(r[0])
  {
    if |s| > 0 && IsSpace(s[0]) then StripLeft(s[1..]) else s
  }

  function StripRight(s: string): (r: string)
    ensures |r| <= |s| && r == s[..|r|]
    ensures forall k :: |r| <= k < |s| ==> IsSpace(s[k])
    ensures |r| > 0 ==> !IsSpace(r[|r| - 1])
  {
    if |s| > 0 && IsSpace(s[|s| - 1]) then StripRight(s[..|s| - 1]) else s
  }

  /* `r` is `s` with a run of whitespace `s[..i]` removed in front and a run
     `s[i + |r|..]` removed behind. */
  predicate TrimmedAt(s: string, r: string, i: nat)
  {
    && i + |r| <= |s|
    && r == s[i..i + |r|]
    && (forall k :: 0 <= k < i ==> IsSpace(s[k]))
    && (forall k :: i + |r| <= k < |s| ==> IsSpace(s[k]))
  }

  /* Python's `str.strip()`: the longest stretch of `s` that neither begins nor
     ends with whitespace, reached by removing only whitespace at both ends. */
  function Strip(s: string): (r: string)
    ensures exists i: nat :: TrimmedAt(s, r, i)
    ensures |r| > 0 ==> !IsSpace(r[0]) && !IsSpace(r[|r| - 1])
  {
    var l := StripLeft(s);
    var r := StripRight(l);
    var i := |s| - |l|;
    assert TrimmedAt(s, r, i);
    r
  }

  /* Only whitespace is removed: a string already stripped is left alone. */
  lemma StripKeepsStripped(s: string)
    requires |s| > 0 ==> !IsSpace(s[0]) && !IsSpace(s[|s| - 1])
    ensures Strip(s) == s
  {
    var r := Strip(s);
    var i: nat :| TrimmedAt(s, r, i);
  }

  lemma StripIdempotent(s: string)
    ensures Strip(Strip(s)) == Strip(s)
  {
    StripKeepsStripped(Strip(s));
  }

  /* A text made only of whitespace strips to the empty text. */
  lemma StripAllSpace(s: string)
    requires AllSpace(s)
    ensures Strip(s) == []
  {
    var r := Strip(s);
    var i: nat :| TrimmedAt(s, r, i);
  }

  /* ----------------------------------------------------------------------- */
  /* Truncation                                                              */
  /* ----------------------------------------------------------------------- */

  /* Python's slice `s[:n]` for a non-negative `n`: the first `n` characters,
     or all of `s` when it is shorter. */
  function Truncate(s: string, n: nat): (r: string)
    ensures r <= s
    ensures |r| == Min(n, |s|)
  {
    if |s| <= n then s else s[..n]
  }

  lemma TruncateShort(s: string, n: nat)
    ensures Truncate(s, n) == s <==> |s| <= n
  {
  }

  /* ----------------------------------------------------------------------- */
  /* Splitting on a one-character separator                                  */
  /* ----------------------------------------------------------------------- */

  /* `r` is the text after the last `c` in `s`, or all of `s` when `s` has no
     `c`: a suffix of `s` free of `c` and either all of `s` or preceded by `c`. */
  predicate IsLastSegment(s: string, c: char, r: string)
  {
    |r| <= |s| && r == s[|s| - |r|..] && c !in r && (|r| < |s| ==> s[|s| - |r| - 1] == c)
  }

  /* There is only one text after the last separator. */
  lemma LastSegmentUnique(s: string, c: char, x: string, y: string)
    requires IsLastSegment(s, c, x) && IsLastSegment(s, c, y)
    ensures x == y
  {
    assert forall k :: |s| - |x| <= k < |s| ==> s[k] == x[k - (|s| - |x|)];
    assert forall k :: |s| - |y| <= k < |s| ==> s[k] == y[k - (|s| - |y|)];
  }

  /* No piece contains the separator. */
  predicate SepFree(parts: seq<string>, c: char)
  {
    forall i :: 0 <= i < |parts| ==> c !in parts[i]
  }

  /* One more character of the text being split: a separator opens a new
     piece, any other character extends the last one. */
  function Push(parts: seq<string>, x: char, c: char): (r: seq<string>)
    requires |parts| >= 1
    ensures |r| >= 1
  {
    if x == c then parts + [[]]
    else parts[..|parts| - 1] + [parts[|parts| - 1] + [x]]
  }

  /* Python's `s.split(c)`: the maximal `c`-free pieces of `s`, in order;
     there is always at least one piece. */
  function Split(s: string, c: char): (parts: seq<string>)
    ensures |parts| >= 1
  {
    if |s| == 0 then [[]] else Push(Split(s[..|s| - 1], c), s[|s| - 1], c)
  }

  /* Python's `c.join(parts)`: it starts with the first piece and ends with
     the last. */
  function Join(parts: seq<string>, c: char): (r: string)
    requires |parts| >= 1
    ensures parts[0] <= r
    ensures |parts[|parts| - 1]| <= |r| && r[|r| - |parts[|parts| - 1]|..] == parts[|parts| - 1]
  {
    if |parts| == 1 then parts[0]
    else Join(parts[..|parts| - 1], c) + [c] + parts[|parts| - 1]
  }

  lemma SplitSnoc(s: string, x: char, c: char)
    ensures Split(s + [x], c) == Push(Split(s, c), x, c)
  {
    assert (s + [x])[..|s|] == s;
  }

  lemma JoinLast(parts: seq<string>, p: string, c: char)
    requires |parts| >= 1
    ensures Join(parts + [p], c) == Join(parts, c) + [c] + p
  {
    assert (parts + [p])[..|parts|] == parts;
  }

  /* Pushing a character onto the pieces appends it to the joined text. */
  lemma JoinPush(parts: seq<string>, x: char, c: char)
    requires |parts| >= 1
    ensures Join(Push(parts, x, c), c) == Join(parts, c) + [x]
  {
    var n := |parts|;
    if x == c {
      JoinLast(parts, [], c);
    } else if n > 1 {
      var pre := parts[..n - 1];
      assert parts == pre + [parts[n - 1]];
      JoinLast(pre, parts[n - 1] + [x], c);
      JoinLast(pre, parts[n - 1], c);
    }
  }

  lemma PushSepFree(parts: seq<string>, x: char, c: char)
    requires |parts| >= 1 && SepFree(parts, c)
    ensures SepFree(Push(parts, x, c), c)
  {
    if x != c {
      var r := Push(parts, x, c);
      assert forall i :: 0 <= i < |parts| - 1 ==> r[i] == parts[i];
      assert c !in parts[|parts| - 1];
    }
  }

  /* Pushing the last character of `s` onto pieces whose last piece is the
     text after the last separator of the rest keeps that property. */
  lemma PushLastSegment(s: string, parts: seq<string>, c: char)
    requires |s| > 0 && |parts| >= 1
    requires IsLastSegment(s[..|s| - 1], c, parts[|parts| - 1])
    ensures IsLastSegment(s, c, Push(parts, s[|s| - 1], c)[|Push(parts, s[|s| - 1], c)| - 1])
  {
    var x := s[|s| - 1];
    if x != c {
      var last := parts[|parts| - 1];
      assert last + [x] == s[|s| - 1 - |last|..];
    }
  }

  /* No piece contains the separator. */
  lemma {:induction false} SplitPiecesSepFree(s: string, c: char)
    ensures SepFree(Split(s, c), c)
  {
    if |s| > 0 {
      var s', x := s[..|s| - 1], s[|s| - 1];
      assert s == s' + [x];
      SplitPiecesSepFree(s', c);
      SplitSnoc(s', x, c);
      PushSepFree(Split(s', c), x, c);
    }
  }

  /* The last piece is the text after the last separator. */
  lemma {:induction false} SplitLastPiece(s: string, c: char)
    ensures IsLastSegment(s, c, Split(s, c)[|Split(s, c)| - 1])
  {
    if |s| > 0 {
      SplitLastPiece(s[..|s| - 1], c);
      PushLastSegment(s, Split(s[..|s| - 1], c), c);
    }
  }

  /* Joining the pieces back with the separator gives the original text. */
  lemma {:induction false} JoinSplit(s: string, c: char)
    ensures Join(Split(s, c), c) == s
  {
    if |s| > 0 {
      var s', x := s[..|s| - 1], s[|s| - 1];
      assert s == s' + [x];
      JoinSplit(s', c);
      SplitSnoc(s', x, c);
      JoinPush(Split(s', c), x, c);
    }
  }

  lemma UnpushChar(parts: seq<string>, c: char) returns (parts': seq<string>, x: char)
    requires |parts| >= 1 && SepFree(parts, c) && |parts[|parts| - 1]| > 0
    ensures |parts'| >= 1 && SepFree(parts', c)
    ensures Push(parts', x, c) == parts
  {
    var n := |parts|;
    var p := parts[n - 1];
    x := p[|p| - 1];
    var p' := p[..|p| - 1];
    parts' := parts[..n - 1] + [p'];
    assert x in p;
    assert forall k :: 0 <= k < |p'| ==> p'[k] == p[k];
    assert forall i :: 0 <= i < n - 1 ==> parts'[i] == parts[i];
    assert p' + [x] == p;
  }

  lemma UnpushSep(parts: seq<string>, c: char) returns (parts': seq<string>)
    requires |parts| >= 2 && SepFree(parts, c) && parts[|parts| - 1] == []
    ensures |parts'| >= 1 && SepFree(parts', c)
    ensures Push(parts', c, c) == parts
  {
    parts' := parts[..|parts| - 1];
    assert parts == parts' + [[]];
    assert forall i :: 0 <= i < |parts'| ==> parts'[i] == parts[i];
  }

  /* Every list of separator-free pieces other than the single empty piece is
     obtained by pushing a character onto a list with a shorter join. */
  lemma Unpush(parts: seq<string>, c: char) returns (parts': seq<string>, x: char)
    requires |parts| >= 1 && SepFree(parts, c)
    requires parts != [[]]
    ensures |parts'| >= 1 && SepFree(parts', c)
    ensures Push(parts', x, c) == parts
    ensures |Join(parts', c)| < |Join(parts, c)|
  {
    if |parts[|parts| - 1]| > 0 {
      parts', x := UnpushChar(parts, c);
    } else {
      parts' := UnpushSep(parts, c);
      x := c;
    }
    JoinPush(parts', x, c);
  }

  /* Splitting joined separator-free pieces gives the pieces back. */
  lemma {:induction false} SplitJoin(parts: seq<string>, c: char)
    requires |parts| >= 1 && SepFree(parts, c)
    ensures Split(Join(parts, c), c) == parts
    decreases |Join(parts, c)|
  {
    if parts != [[]] {
      var parts', x := Unpush(parts, c);
      SplitJoin(parts', c);
      JoinPush(parts', x, c);
      SplitSnoc(Join(parts', c), x, c);
    }
  }
}
