/**
 * The Python `str` operations the dashboard applies to its text columns:
 * `lower`, `strip`, `split(sep)` with a one-character separator, and
 * `replace(old, "")`.
 */
module Text {

  /** The characters Python's `str.isspace` accepts, which `str.strip()` removes. */
  predicate IsSpace(c: char)
  {
    || '\t' <= c <= '\r'
    || '\U{001C}' <= c <= ' '
    || c == '\U{0085}' || c == '\U{00A0}' || c == '\U{1680}'
    || '\U{2000}' <= c <= '\U{200A}'
    || c == '\U{2028}' || c == '\U{2029}' || c == '\U{202F}' || c == '\U{205F}' || c == '\U{3000}'
  }

  // ---------------------------------------------------------------- lower

  /** ASCII lower-casing of one character; every other character is kept. */
  function LowerChar(c: char): (d: char)
    ensures 'A' <= c <= 'Z' ==> 'a' <= d <= 'z' && d as int == c as int + 32
    ensures !('A' <= c <= 'Z') ==> d == c
  {
    if 'A' <= c <= 'Z' then (c as int + 32) as char else c
  }

  function Lower(s: string): (r: string)
    ensures |r| == |s|
    ensures forall i :: 0 <= i < |s| ==> r[i] == LowerChar(s[i])
  {
    seq(|s|, i requires 0 <= i < |s| => LowerChar(s[i]))
  }

  /** Lower-casing a lower-cased string changes nothing. */
  lemma LowerIdempotent(s: string)
    ensures Lower(Lower(s)) == Lower(s)
  {
    var l := Lower(s);
    assert forall i :: 0 <= i < |l| ==> LowerChar(l[i]) == l[i];
  }

  // ---------------------------------------------------------------- strip

  /** The number of whitespace characters `s` starts with. */
  function LeadingSpace(s: string): (n: nat)
    ensures n <= |s|
    ensures forall k :: 0 <= k < n ==> IsSpace(s[k])
    ensures n == |s| || !IsSpace(s[n])
    decreases |s|
  {
    if |s| > 0 && IsSpace(s[0]) then 1 + LeadingSpace(s[1..]) else 0
  }

  /** The number of whitespace characters `s` ends with. */
  function TrailingSpace(s: string): (n: nat)
    ensures n <= |s|
    ensures forall k :: |s| - n <= k < |s| ==> IsSpace(s[k])
    ensures n == |s| || !IsSpace(s[|s| - n - 1])
    decreases |s|
  {
    if |s| > 0 && IsSpace(s[|s| - 1]) then 1 + TrailingSpace(s[..|s| - 1]) else 0
  }

  /**
   * `strip()`: the text between the leading and the trailing whitespace; what
   * it drops on either side is whitespace and it neither starts nor ends with any.
   */
  function Strip(s: string): (r: string)
    ensures LeadingSpace(s) + |r| <= |s| && r == s[LeadingSpace(s)..LeadingSpace(s) + |r|]
    ensures forall k :: 0 <= k < LeadingSpace(s) ==> IsSpace(s[k])
    ensures forall k :: LeadingSpace(s) + |r| <= k < |s| ==> IsSpace(s[k])
    ensures r == [] || (!IsSpace(r[0]) && !IsSpace(r[|r| - 1]))
  {
    var i := LeadingSpace(s);
    TrailingOfSuffix(s, i);
    s[i..][..|s[i..]| - TrailingSpace(s[i..])]
  }

  /** The trailing whitespace of a suffix of `s` is whitespace of `s`. */
  lemma TrailingOfSuffix(s: string, i: nat)
    requires i <= |s|
    ensures forall k :: i + |s[i..]| - TrailingSpace(s[i..]) <= k < |s| ==> IsSpace(s[k])
  {
    var t := s[i..];
    forall k | i + |t| - TrailingSpace(t) <= k < |s| ensures IsSpace(s[k]) {
      assert s[k] == t[k - i];
    }
  }

  /** A character that does not occur in `s` does not occur in `Strip(s)`. */
  lemma StripKeepsAbsent(s: string, c: char)
    requires c !in s
    ensures c !in Strip(s)
  {
    var r := Strip(s);
    var i := LeadingSpace(s);
    forall k | 0 <= k < |r| ensures r[k] != c {
      assert r[k] == s[i + k];
    }
  }

  /** Stripping a stripped string changes nothing. */
  lemma StripIdempotent(s: string)
    ensures Strip(Strip(s)) == Strip(s)
  {
    var r := Strip(s);
    assert LeadingSpace(r) == 0;
    assert TrailingSpace(r) == 0;
  }

  // ---------------------------------------------------------------- split and join

  /**
   * `s.split(sep)`: the pieces between the separators, empty pieces
   * included, so `n` separators give `n + 1` pieces.
   */
  function Split(s: string, sep: char): (pieces: seq<string>)
    ensures |pieces| >= 1
    ensures forall p :: p in pieces ==> sep !in p
    decreases |s|
  {
    if |s| == 0 then [""]
    else
      var rest := Split(s[1..], sep);
      if s[0] == sep then [""] + rest
      else [[s[0]] + rest[0]] + rest[1..]
  }

  /** Joining the pieces of a split with the separator gives back the text. */
  lemma {:induction false} SplitThenJoin(s: string, sep: char)
    ensures Join(Split(s, sep), sep) == s
    decreases |s|
  {
    if |s| > 0 {
      SplitThenJoin(s[1..], sep);
      var rest := Split(s[1..], sep);
      assert s == [s[0]] + s[1..];
      if s[0] != sep {
        JoinCons(rest, sep);
      }
    }
  }

  /** The inverse of `Split`: the pieces with one separator between neighbours. */
  function Join(pieces: seq<string>, sep: char): string
    decreases |pieces|
  {
    if |pieces| == 0 then ""
    else if |pieces| == 1 then pieces[0]
    else pieces[0] + [sep] + Join(pieces[1..], sep)
  }

  lemma JoinCons(rest: seq<string>, sep: char)
    requires |rest| >= 1
    ensures forall c :: Join([[c] + rest[0]] + rest[1..], sep) == [c] + Join(rest, sep)
  {
    forall c ensures Join([[c] + rest[0]] + rest[1..], sep) == [c] + Join(rest, sep) {
      var ps := [[c] + rest[0]] + rest[1..];
      assert ps[1..] == rest[1..];
    }
  }

  /** `Split` recovers any separator-free pieces from their join: the two are inverses. */
  lemma {:induction false} SplitJoin(pieces: seq<string>, sep: char)
    requires |pieces| >= 1
    requires forall p :: p in pieces ==> sep !in p
    ensures Split(Join(pieces, sep), sep) == pieces
    decreases |Join(pieces, sep)|, |pieces[0]|
  {
    var s := Join(pieces, sep);
    if |pieces| == 1 {
      SplitFree(pieces[0], sep);
    } else if pieces[0] == [] {
      assert s == [sep] + Join(pieces[1..], sep);
      assert s[1..] == Join(pieces[1..], sep);
      SplitJoin(pieces[1..], sep);
      assert pieces == [""] + pieces[1..];
    } else {
      var tail := [pieces[0][1..]] + pieces[1..];
      assert pieces[0] == [pieces[0][0]] + pieces[0][1..];
      assert tail[1..] == pieces[1..];
      JoinCons(tail, sep);
      assert [[pieces[0][0]] + tail[0]] + tail[1..] == pieces;
      assert s == [pieces[0][0]] + Join(tail, sep);
      assert s[1..] == Join(tail, sep);
      forall p | p in tail ensures sep !in p {
        if p == tail[0] {
          assert sep !in pieces[0];
        } else {
          assert p in pieces;
        }
      }
      SplitJoin(tail, sep);
      assert pieces[0] in pieces;
      assert s[0] == pieces[0][0] != sep;
    }
  }

  /** A string without the separator splits into itself alone. */
  lemma {:induction false} SplitFree(s: string, sep: char)
    ensures sep !in s ==> Split(s, sep) == [s]
    decreases |s|
  {
    if |s| > 0 && sep !in s {
      assert sep !in s[1..];
      SplitFree(s[1..], sep);
      assert Split(s, sep) == [[s[0]] + s[1..]] + [s[1..]][1..];
      assert s == [s[0]] + s[1..];
    }
  }

  /** The first piece is the part before the first separator. */
  lemma {:induction false} SplitFirst(s: string, sep: char)
    ensures var p := Split(s, sep)[0];
            |p| <= |s| && p == s[..|p|] && (|p| < |s| ==> s[|p|] == sep)
    decreases |s|
  {
    if |s| > 0 && s[0] != sep {
      SplitFirst(s[1..], sep);
    }
  }

  lemma SliceOfSuffix<T>(s: seq<T>, i: nat, j: nat)
    requires i + j <= |s|
    ensures s[i..][j..] == s[i + j..]
  {
  }

  /** The last piece is the part after the last separator. */
  lemma {:induction false} SplitLast(s: string, sep: char)
    ensures var ps := Split(s, sep); var p := ps[|ps| - 1];
            |p| <= |s| && p == s[|s| - |p|..] && (|p| < |s| ==> s[|s| - |p| - 1] == sep)
    decreases |s|
  {
    if |s| > 0 {
      SplitLast(s[1..], sep);
      var rest := Split(s[1..], sep);
      var last := rest[|rest| - 1];
      SliceOfSuffix(s, 1, |s| - 1 - |last|);
      if s[0] != sep && |last| == |s| - 1 {
        SplitWhole(s, sep);
      } else {
        if s[0] != sep {
          SplitThenJoin(s[1..], sep);
          assert |rest| > 1;
        }
        SplitLastOfTail(s, sep);
        if |last| < |s| - 1 {
          assert s[1..][|s| - 1 - |last| - 1] == s[|s| - |last| - 1];
        }
      }
    }
  }

  /** When the tail's last piece is the whole tail and `s` does not start with a separator, `s` is one piece. */
  lemma SplitWhole(s: string, sep: char)
    requires |s| > 0 && s[0] != sep
    requires Split(s[1..], sep)[|Split(s[1..], sep)| - 1] == s[1..]
    ensures Split(s, sep) == [s]
  {
    var rest := Split(s[1..], sep);
    assert rest[|rest| - 1] in rest;
    SplitFree(s[1..], sep);
    assert s == [s[0]] + s[1..];
  }

  /** When `s` starts a new piece or its tail has several, the last piece is the tail's last piece. */
  lemma SplitLastOfTail(s: string, sep: char)
    requires |s| > 0
    requires s[0] == sep || |Split(s[1..], sep)| > 1
    ensures Split(s, sep)[|Split(s, sep)| - 1] == Split(s[1..], sep)[|Split(s[1..], sep)| - 1]
  {
  }

  /** A character absent from `s` is absent from every piece of its split. */
  lemma {:induction false} SplitKeepsAbsent(s: string, sep: char, c: char)
    requires c !in s
    ensures forall p :: p in Split(s, sep) ==> c !in p
    decreases |s|
  {
    if |s| > 0 {
      assert c !in s[1..];
      SplitKeepsAbsent(s[1..], sep, c);
    }
  }

  // ---------------------------------------------------------------- replace

  /** `pat` occurs in `s` starting at position `i`. */
  predicate OccursAt(s: string, pat: string, i: int)
  {
    0 <= i && i + |pat| <= |s| && s[i..i + |pat|] == pat
  }

  /**
   * `s.replace(pat, "")`: occurrences of `pat` are removed scanning left to
   * right, each match resuming after the removed text.
   */
  function RemoveAll(s: string, pat: string): (r: string)
    requires |pat| > 0
    ensures |r| <= |s|
    ensures forall k :: 0 <= k < |r| ==> r[k] in s
    decreases |s|
  {
    if |s| < |pat| then s
    else if s[..|pat|] == pat then
      var r := RemoveAll(s[|pat|..], pat);
      assert forall k :: 0 <= k < |r| ==> r[k] in s[|pat|..];
      r
    else
      var r := RemoveAll(s[1..], pat);
      assert forall k :: 0 <= k < |r| ==> r[k] in s[1..];
      [s[0]] + r
  }

  /** Text in which `pat` does not occur is left as it is. */
  lemma {:induction false} RemoveAllAbsent(s: string, pat: string)
    requires |pat| > 0
    requires forall i :: !OccursAt(s, pat, i)
    ensures RemoveAll(s, pat) == s
    decreases |s|
  {
    if |s| >= |pat| {
      assert !OccursAt(s, pat, 0);
      forall i ensures !OccursAt(s[1..], pat, i) {
        assert !OccursAt(s, pat, i + 1);
        if 0 <= i && i + |pat| <= |s| - 1 {
          assert s[1..][i..i + |pat|] == s[i + 1..i + 1 + |pat|];
        }
      }
      RemoveAllAbsent(s[1..], pat);
      assert s == [s[0]] + s[1..];
    }
  }

  /** `r` is `s` with some characters deleted and the others kept in order. */
  predicate SubsequenceOf(r: string, s: string)
    decreases |s|
  {
    |r| == 0 || (|s| > 0 && ((r[0] == s[0] && SubsequenceOf(r[1..], s[1..])) || SubsequenceOf(r, s[1..])))
  }

  lemma {:induction false} SubsequenceOfSelf(s: string)
    ensures SubsequenceOf(s, s)
    decreases |s|
  {
    if |s| > 0 {
      SubsequenceOfSelf(s[1..]);
    }
  }

  /** A subsequence of a suffix of `s` is a subsequence of `s`. */
  lemma {:induction false} SubsequenceOfSuffix(r: string, s: string, k: nat)
    requires k <= |s| && SubsequenceOf(r, s[k..])
    ensures SubsequenceOf(r, s)
    decreases k
  {
    if k > 0 {
      assert s[1..][k - 1..] == s[k..];
      SubsequenceOfSuffix(r, s[1..], k - 1);
    }
  }

  /** An occurrence after the first position of `s` is an occurrence in `s[1..]`, one place earlier. */
  lemma OccursInTail(s: string, pat: string, i: int)
    requires |s| > 0 && i >= 1
    ensures OccursAt(s, pat, i) <==> OccursAt(s[1..], pat, i - 1)
  {
    if i - 1 + |pat| <= |s| - 1 {
      assert s[1..][i - 1..i - 1 + |pat|] == s[i..i + |pat|];
    }
  }

  /**
   * What `replace(pat, "")` takes away: the characters it keeps are a
   * subsequence of `s`, what it removes is a whole number of copies of
   * `pat`, and it removes something exactly when `pat` occurs in `s`.
   */
  lemma {:induction false} RemoveAllRemoves(s: string, pat: string)
    requires |pat| > 0
    ensures SubsequenceOf(RemoveAll(s, pat), s)
    ensures exists k: nat :: |s| == |RemoveAll(s, pat)| + k * |pat|
    ensures |RemoveAll(s, pat)| < |s| <==> exists i :: OccursAt(s, pat, i)
    decreases |s|
  {
    var r := RemoveAll(s, pat);
    if |s| < |pat| {
      SubsequenceOfSelf(s);
      assert |s| == |r| + 0 * |pat|;
    } else if s[..|pat|] == pat {
      var t := s[|pat|..];
      RemoveAllRemoves(t, pat);
      SubsequenceOfSuffix(r, s, |pat|);
      var k: nat :| |t| == |r| + k * |pat|;
      assert |s| == |r| + (k + 1) * |pat|;
      assert OccursAt(s, pat, 0);
    } else {
      var t := s[1..];
      var rt := RemoveAll(t, pat);
      RemoveAllRemoves(t, pat);
      assert r == [s[0]] + rt && r[1..] == rt;
      var k: nat :| |t| == |rt| + k * |pat|;
      assert |s| == |r| + k * |pat|;
      assert !OccursAt(s, pat, 0);
      if exists i :: OccursAt(t, pat, i) {
        var j :| OccursAt(t, pat, j);
        OccursInTail(s, pat, j + 1);
      }
      if exists i :: OccursAt(s, pat, i) {
        var j :| OccursAt(s, pat, j);
        OccursInTail(s, pat, j);
      }
    }
  }

  /**
   * The stretches of `s` between the copies of `pat` that `RemoveAll` takes
   * out, in order; the first copy found scanning left to right is cut first.
   */
  function Segments(s: string, pat: string): (segs: seq<string>)
    requires |pat| > 0
    ensures |segs| >= 1
    decreases |s|
  {
    if |s| < |pat| then [s]
    else if s[..|pat|] == pat then [""] + Segments(s[|pat|..], pat)
    else
      var rest := Segments(s[1..], pat);
      [[s[0]] + rest[0]] + rest[1..]
  }

  /** The segments with a copy of `pat` between each two neighbours. */
  function Weave(segs: seq<string>, pat: string): string
    requires |segs| >= 1
    decreases |segs|
  {
    if |segs| == 1 then segs[0] else segs[0] + pat + Weave(segs[1..], pat)
  }

  /** The segments one after another. */
  function Concat(segs: seq<string>): string
    decreases |segs|
  {
    if |segs| == 0 then "" else segs[0] + Concat(segs[1..])
  }

  lemma WeaveConsHead(c: char, rest: seq<string>, pat: string)
    requires |rest| >= 1
    ensures Weave([[c] + rest[0]] + rest[1..], pat) == [c] + Weave(rest, pat)
  {
    var segs := [[c] + rest[0]] + rest[1..];
    if |rest| > 1 {
      assert segs[1..] == rest[1..];
    }
  }

  /** A segment that starts where `pat` does not start, and whose tail is free of `pat`, is free of `pat`. */
  lemma HeadPatFree(s: string, pat: string, head: string, tail: string)
    requires |pat| > 0 && |s| >= |pat| && s[..|pat|] != pat
    requires |head| > 0 && s == head + tail
    requires forall i :: !OccursAt(head[1..], pat, i)
    ensures forall i :: !OccursAt(head, pat, i)
  {
    forall i ensures !OccursAt(head, pat, i) {
      if i == 0 {
        if |head| >= |pat| {
          assert s[..|pat|] == head[..|pat|];
        }
      } else if i >= 1 {
        OccursInTail(head, pat, i);
      }
    }
  }

  /** Weaving the segments back together with `pat` gives the text. */
  lemma {:induction false} SegmentsWeave(s: string, pat: string)
    requires |pat| > 0
    ensures Weave(Segments(s, pat), pat) == s
    decreases |s|
  {
    if |s| >= |pat| {
      if s[..|pat|] == pat {
        SegmentsWeave(s[|pat|..], pat);
        WeaveMatchStep(s, pat);
      } else {
        SegmentsWeave(s[1..], pat);
        WeaveSkipStep(s, pat);
      }
    }
  }

  lemma WeaveMatchStep(s: string, pat: string)
    requires |pat| > 0 && |s| >= |pat| && s[..|pat|] == pat
    requires Weave(Segments(s[|pat|..], pat), pat) == s[|pat|..]
    ensures Weave(Segments(s, pat), pat) == s
  {
    WeaveOfMatch(s, pat);
    PrefixThenRest(s, pat);
  }

  lemma WeaveOfMatch(s: string, pat: string)
    requires |pat| > 0 && |s| >= |pat| && s[..|pat|] == pat
    requires Weave(Segments(s[|pat|..], pat), pat) == s[|pat|..]
    ensures Weave(Segments(s, pat), pat) == pat + s[|pat|..]
  {
    var t := s[|pat|..];
    SegmentsOfMatch(s, pat);
    WeaveEmptyHead(t, pat, Segments(t, pat));
  }

  lemma PrefixThenRest(s: string, pat: string)
    requires |s| >= |pat| && s[..|pat|] == pat
    ensures s == pat + s[|pat|..]
  {
    assert s == s[..|pat|] + s[|pat|..];
  }

  lemma SegmentsOfMatch(s: string, pat: string)
    requires |pat| > 0 && |s| >= |pat| && s[..|pat|] == pat
    ensures Weave(Segments(s, pat), pat) == Weave([""] + Segments(s[|pat|..], pat), pat)
  {
    assert Segments(s, pat) == [""] + Segments(s[|pat|..], pat);
  }

  lemma WeaveEmptyHead(t: string, pat: string, rest: seq<string>)
    requires |rest| >= 1 && Weave(rest, pat) == t
    ensures Weave([""] + rest, pat) == pat + t
  {
    WeaveCons("", rest, pat);
    assert "" + pat + t == pat + t;
  }

  lemma WeaveCons(x: string, rest: seq<string>, pat: string)
    requires |rest| >= 1
    ensures Weave([x] + rest, pat) == x + pat + Weave(rest, pat)
  {
    assert ([x] + rest)[1..] == rest;
  }

  lemma WeaveSkipStep(s: string, pat: string)
    requires |pat| > 0 && |s| >= |pat| && s[..|pat|] != pat
    requires Weave(Segments(s[1..], pat), pat) == s[1..]
    ensures Weave(Segments(s, pat), pat) == s
  {
    var rest := Segments(s[1..], pat);
    assert Segments(s, pat) == [[s[0]] + rest[0]] + rest[1..];
    WeaveConsHead(s[0], rest, pat);
    assert s == [s[0]] + s[1..];
  }

  /** What `RemoveAll` keeps is the segments one after another. */
  lemma {:induction false} SegmentsConcat(s: string, pat: string)
    requires |pat| > 0
    ensures RemoveAll(s, pat) == Concat(Segments(s, pat))
    decreases |s|
  {
    var segs := Segments(s, pat);
    if |s| < |pat| {
      assert Concat(segs) == s + Concat([]);
    } else if s[..|pat|] == pat {
      SegmentsConcat(s[|pat|..], pat);
      assert segs[1..] == Segments(s[|pat|..], pat);
    } else {
      var rest := Segments(s[1..], pat);
      SegmentsConcat(s[1..], pat);
      assert segs[1..] == rest[1..];
      assert Concat(rest) == rest[0] + Concat(rest[1..]);
      assert Concat(segs) == ([s[0]] + rest[0]) + Concat(rest[1..]);
    }
  }

  /** No segment contains `pat`. */
  lemma {:induction false} SegmentsPatFree(s: string, pat: string)
    requires |pat| > 0
    ensures forall k, i :: 0 <= k < |Segments(s, pat)| ==> !OccursAt(Segments(s, pat)[k], pat, i)
    decreases |s|
  {
    var segs := Segments(s, pat);
    if |s| < |pat| {
      assert segs == [s];
    } else if s[..|pat|] == pat {
      SegmentsPatFree(s[|pat|..], pat);
      assert segs[1..] == Segments(s[|pat|..], pat);
      assert forall i :: !OccursAt(segs[0], pat, i);
    } else {
      var t := s[1..];
      var rest := Segments(t, pat);
      SegmentsPatFree(t, pat);
      SegmentsWeave(t, pat);
      var tail := if |rest| == 1 then "" else pat + Weave(rest[1..], pat);
      assert Weave(rest, pat) == rest[0] + tail;
      assert s == [s[0]] + rest[0] + tail;
      assert ([s[0]] + rest[0])[1..] == rest[0];
      HeadPatFree(s, pat, [s[0]] + rest[0], tail);
      forall k, i | 1 <= k < |segs| ensures !OccursAt(segs[k], pat, i) {
        assert segs[k] == rest[k];
      }
    }
  }

  /**
   * `replace(pat, "")` cuts `s` into segments separated by copies of `pat`,
   * none of which contains `pat`, and keeps the segments: the removed
   * characters are exactly those copies, and no copy is left inside a kept segment.
   */
  lemma RemoveAllSegments(s: string, pat: string)
    requires |pat| > 0
    ensures Weave(Segments(s, pat), pat) == s
    ensures RemoveAll(s, pat) == Concat(Segments(s, pat))
    ensures forall k, i :: 0 <= k < |Segments(s, pat)| ==> !OccursAt(Segments(s, pat)[k], pat, i)
  {
    SegmentsWeave(s, pat);
    SegmentsConcat(s, pat);
    SegmentsPatFree(s, pat);
  }
}
