/**
 * The text operations decodePagination relies on, over sequences of any
 * element type: Python's str.split with a one-character separator, taking
 * the last field of a split, and str.replace (every leftmost,
 * non-overlapping occurrence; an empty pattern matches at every position).
 */
module Strings {

  /** sep.join(parts). */
  function Join<T>(parts: seq<seq<T>>, sep: T): seq<T>
    decreases |parts|
  {
    if |parts| == 0 then []
    else if |parts| == 1 then parts[0]
    else parts[0] + [sep] + Join(parts[1..], sep)
  }

  /** s.split(sep): the maximal runs between separators; never empty. */
  function Split<T(==)>(s: seq<T>, sep: T): (parts: seq<seq<T>>)
    ensures |parts| >= 1
    ensures forall i | 0 <= i < |parts| :: sep !in parts[i]
    ensures Join(parts, sep) == s
    decreases |s|
  {
    if |s| == 0 then [[]]
    else
      var rest := Split(s[1..], sep);
      if s[0] == sep then
        assert Join([[]] + rest, sep) == [] + [sep] + Join(rest, sep);
        assert s == [sep] + s[1..];
        [[]] + rest
      else
        var parts := [[s[0]] + rest[0]] + rest[1..];
        JoinCons(parts, sep);
        JoinCons(rest, sep);
        assert parts[1..] == rest[1..];
        assert s == [s[0]] + s[1..];
        parts
  }

  lemma JoinCons<T>(parts: seq<seq<T>>, sep: T)
    requires |parts| >= 1
    ensures Join(parts, sep) == parts[0] + (if |parts| == 1 then [] else [sep] + Join(parts[1..], sep))
  {
  }

  /** Four parts joined: each two separated by one sep. */
  lemma JoinFour<T>(a: seq<T>, b: seq<T>, c: seq<T>, d: seq<T>, sep: T)
    ensures Join([a, b, c, d], sep) == a + [sep] + b + [sep] + c + [sep] + d
  {
    var parts := [a, b, c, d];
    JoinCons(parts, sep);
    JoinCons(parts[1..], sep);
    JoinCons(parts[2..], sep);
    JoinCons(parts[3..], sep);
    assert parts[1..][1..] == parts[2..] && parts[2..][1..] == parts[3..];
    assert Join(parts, sep) == a + ([sep] + (b + ([sep] + (c + ([sep] + d)))));
  }

  /** Splitting separator-free fields joined by the separator gives the fields back. */
  lemma {:induction false} SplitJoin<T>(parts: seq<seq<T>>, sep: T)
    requires |parts| >= 1
    requires forall i | 0 <= i < |parts| :: sep !in parts[i]
    ensures Split(Join(parts, sep), sep) == parts
    decreases |parts|
  {
    if |parts| == 1 {
      SplitPlain(parts[0], sep);
    } else {
      SplitJoin(parts[1..], sep);
      SplitPrefix(parts[0], sep, Join(parts[1..], sep));
      assert parts == [parts[0]] + parts[1..];
    }
  }

  /** A separator-free sequence splits into itself. */
  lemma {:induction false} SplitPlain<T>(p: seq<T>, sep: T)
    requires sep !in p
    ensures Split(p, sep) == [p]
    decreases |p|
  {
    if p != [] {
      SplitPlain(p[1..], sep);
      assert [p[0]] + p[1..] == p;
    }
  }

  /** A separator-free field in front of a separator splits off as the first field. */
  lemma {:induction false} SplitPrefix<T>(p: seq<T>, sep: T, t: seq<T>)
    requires sep !in p
    ensures Split(p + [sep] + t, sep) == [p] + Split(t, sep)
    decreases |p|
  {
    var s := p + [sep] + t;
    if p == [] {
      assert s == [sep] + t && s[1..] == t;
    } else {
      assert s[1..] == p[1..] + [sep] + t;
      SplitPrefix(p[1..], sep, t);
      assert [p[0]] + p[1..] == p;
    }
  }

  /**
   * Three separator-free fields, then nothing or a separator and anything:
   * the split starts with those three fields.
   */
  lemma SplitThree<T>(a: seq<T>, b: seq<T>, c: seq<T>, tail: seq<T>, sep: T)
    requires sep !in a && sep !in b && sep !in c
    requires tail == [] || tail[0] == sep
    ensures var f := Split(a + [sep] + b + [sep] + c + tail, sep);
      |f| >= 3 && f[0] == a && f[1] == b && f[2] == c
  {
    var rest := c + tail;
    var t1 := b + [sep] + rest;
    assert a + [sep] + b + [sep] + c + tail == a + [sep] + t1;
    SplitPrefix(a, sep, t1);
    SplitPrefix(b, sep, rest);
    if tail == [] {
      assert rest == c;
      SplitPlain(c, sep);
    } else {
      assert rest == c + [sep] + tail[1..];
      SplitPrefix(c, sep, tail[1..]);
    }
  }

  /** s.split(sep)[-1]. */
  function LastSegment<T(==)>(s: seq<T>, sep: T): (r: seq<T>)
    ensures sep !in r
    ensures |r| <= |s| && s[|s| - |r|..] == r
    ensures |r| == |s| || s[|s| - |r| - 1] == sep
  {
    var parts := Split(s, sep);
    JoinLast(parts, sep);
    parts[|parts| - 1]
  }

  /** A join ends with its last field, and a separator comes right before it. */
  lemma {:induction false} JoinLast<T>(parts: seq<seq<T>>, sep: T)
    requires |parts| >= 1
    ensures var j, l := Join(parts, sep), parts[|parts| - 1];
      |l| <= |j| && j[|j| - |l|..] == l && (|parts| == 1 || (|l| < |j| && j[|j| - |l| - 1] == sep))
    decreases |parts|
  {
    if |parts| > 1 {
      JoinLast(parts[1..], sep);
      var t := Join(parts[1..], sep);
      var j := parts[0] + [sep] + t;
      assert j[|parts[0]| + 1..] == t;
      if |parts| == 2 {
        assert j[|parts[0]|] == sep;
      }
    }
  }

  /**
   * The last segment is the only separator-free suffix that is the whole
   * sequence or follows a separator.
   */
  lemma LastSegmentUnique<T>(s: seq<T>, sep: T, r: seq<T>)
    requires sep !in r
    requires |r| <= |s| && s[|s| - |r|..] == r
    requires |r| == |s| || s[|s| - |r| - 1] == sep
    ensures LastSegment(s, sep) == r
  {
    var l := LastSegment(s, sep);
    assert l == s[|s| - |l|..];
  }

  /** A separator-free sequence is its own last segment. */
  lemma LastSegmentPlain<T>(r: seq<T>, sep: T)
    requires sep !in r
    ensures LastSegment(r, sep) == r
  {
    LastSegmentUnique(r, sep, r);
  }

  /** Whatever precedes a separator, the last segment is that of what follows it. */
  lemma LastSegmentAfterSep<T>(p: seq<T>, sep: T, r: seq<T>)
    ensures LastSegment(p + [sep] + r, sep) == LastSegment(r, sep)
  {
    var s, l := p + [sep] + r, LastSegment(r, sep);
    var k := |r| - |l|;
    assert r[k..] == l;
    assert s[|p| + 1..] == r;
    assert s[|p| + 1 + k..] == r[k..];
    if k == 0 {
      assert s[|p|] == sep;
    } else {
      assert r[k - 1] == sep;
      assert s[|p| + k] == r[k - 1];
    }
    LastSegmentUnique(s, sep, l);
  }

  lemma LastSegmentAfterTrailingSep<T>(q: seq<T>, sep: T, r: seq<T>)
    requires q != [] && q[|q| - 1] == sep
    ensures LastSegment(q + r, sep) == LastSegment(r, sep)
  {
    assert q == q[..|q| - 1] + [sep];
    LastSegmentAfterSep(q[..|q| - 1], sep, r);
  }

  /** Position i of s starts an occurrence of pat. */
  predicate OccursAt<T(==)>(s: seq<T>, pat: seq<T>, i: int) {
    0 <= i && i + |pat| <= |s| && s[i..i + |pat|] == pat
  }

  predicate Occurs<T(==)>(s: seq<T>, pat: seq<T>) {
    exists i | 0 <= i <= |s| :: OccursAt(s, pat, i)
  }

  /** s.replace(pat, rep). */
  function Replace<T(==)>(s: seq<T>, pat: seq<T>, rep: seq<T>): (r: seq<T>)
    ensures pat == [] ==> |r| == |s| + (|s| + 1) * |rep|
  {
    if pat == [] then rep + Interleave(s, rep) else ReplaceAll(s, pat, rep)
  }

  /** Text in which the pattern does not occur comes back unchanged. */
  lemma ReplaceAbsent<T>(s: seq<T>, pat: seq<T>, rep: seq<T>)
    requires pat != [] && !Occurs(s, pat)
    ensures Replace(s, pat, rep) == s
  {
    ReplaceAllAbsent(s, pat, rep);
  }

  /**
   * With an empty pattern, rep goes in at every one of the |s| + 1
   * positions: the empty text becomes rep, and each element c stays in
   * place with the replacement of what precedes it before it and the
   * replacement of what follows it after it.
   */
  lemma ReplaceEmptyPattern<T>(a: seq<T>, c: T, b: seq<T>, rep: seq<T>)
    ensures Replace([], [], rep) == rep
    ensures Replace(a + [c] + b, [], rep) == Replace(a, [], rep) + [c] + Replace(b, [], rep)
  {
    var left, right := Interleave(a, rep), Interleave(b, rep);
    ReplaceEmpty(a + [c] + b, rep);
    ReplaceEmpty(a, rep);
    ReplaceEmpty(b, rep);
    InterleaveConcat(a + [c], b, rep);
    InterleaveConcat(a, [c], rep);
    assert Interleave([c], rep) == [c] + rep;
    assert rep + (left + ([c] + rep) + right) == (rep + left) + [c] + (rep + right);
  }

  lemma ReplaceEmpty<T>(s: seq<T>, rep: seq<T>)
    ensures Replace(s, [], rep) == rep + Interleave(s, rep)
  {
  }

  /** Interleaving distributes over concatenation. */
  lemma {:induction false} InterleaveConcat<T>(x: seq<T>, y: seq<T>, rep: seq<T>)
    ensures Interleave(x + y, rep) == Interleave(x, rep) + Interleave(y, rep)
    decreases |x|
  {
    if x != [] {
      InterleaveConcat(x[1..], y, rep);
      assert (x + y)[1..] == x[1..] + y;
    } else {
      assert x + y == y;
    }
  }

  /** An empty pattern in "ab" is matched at the start, between the letters and at the end. */
  lemma ReplaceEmptyExample()
    ensures Replace("ab", "", "X") == "XaXbX"
  {
    ReplaceEmptyPattern("a", 'b', "", "X");
    ReplaceEmptyPattern("", 'a', "", "X");
    assert "ab" == "a" + ['b'] + "";
    assert "a" == "" + ['a'] + "";
  }

  /** Each element of s followed by rep: where an empty pattern inserts rep. */
  function Interleave<T>(s: seq<T>, rep: seq<T>): (r: seq<T>)
    ensures |r| == |s| * (1 + |rep|)
    decreases |s|
  {
    if s == [] then [] else [s[0]] + rep + Interleave(s[1..], rep)
  }

  /** Replacement of a non-empty pattern, scanning from the left. */
  function ReplaceAll<T(==)>(s: seq<T>, pat: seq<T>, rep: seq<T>): seq<T>
    requires pat != []
    decreases |s|
  {
    if |s| < |pat| then s
    else if s[..|pat|] == pat then rep + ReplaceAll(s[|pat|..], pat, rep)
    else [s[0]] + ReplaceAll(s[1..], pat, rep)
  }

  lemma {:induction false} ReplaceAllAbsent<T>(s: seq<T>, pat: seq<T>, rep: seq<T>)
    requires pat != [] && !Occurs(s, pat)
    ensures ReplaceAll(s, pat, rep) == s
    decreases |s|
  {
    if |s| >= |pat| {
      assert !OccursAt(s, pat, 0);
      assert !Occurs(s[1..], pat) by {
        forall i | OccursAt(s[1..], pat, i)
          ensures OccursAt(s, pat, i + 1)
        {
          assert s[i + 1..i + 1 + |pat|] == s[1..][i..i + |pat|];
        }
      }
      ReplaceAllAbsent(s[1..], pat, rep);
      assert s == [s[0]] + s[1..];
    }
  }

  /** The last element of a nonempty sequence is followed by rep at the end of Interleave. */
  lemma {:induction false} InterleaveLast<T>(s: seq<T>, rep: seq<T>)
    requires s != []
    ensures Interleave(s, rep) == Interleave(s[..|s| - 1], rep) + [s[|s| - 1]] + rep
    decreases |s|
  {
    if |s| > 1 {
      InterleaveLast(s[1..], rep);
      assert s[1..][..|s| - 2] == s[..|s| - 1][1..];
    } else {
      assert s[..0] == [];
    }
  }

  /**
   * When the separator is not part of the pattern, replacing in a prefix
   * that is empty or ends in the separator does not reach across into a
   * pattern appended after it.
   */
  lemma {:induction false} ReplaceAfterSep<T>(p: seq<T>, sep: T, pat: seq<T>, rep: seq<T>)
    requires pat != [] && sep !in pat
    requires p == [] || p[|p| - 1] == sep
    ensures ReplaceAll(p + pat, pat, rep) == ReplaceAll(p, pat, rep) + rep
    decreases |p|
  {
    var s := p + pat;
    if p == [] {
      assert s == pat && s[..|pat|] == pat && s[|pat|..] == [];
      ReplaceAtMatch(s, pat, rep);
    } else if s[..|pat|] == pat {
      MatchStopsAtSep(s, |p| - 1, sep, pat);
      var t := p[|pat|..];
      ReplaceAfterSep(t, sep, pat, rep);
      assert p == pat + t;
      AfterSepMatch(t, pat, rep);
    } else {
      var t := p[1..];
      ReplaceAfterSep(t, sep, pat, rep);
      assert p == [p[0]] + t;
      AfterSepMiss(p[0], t, pat, rep);
    }
  }

  /** The step of ReplaceAfterSep where the pattern starts p: p is pat + t. */
  lemma AfterSepMatch<T>(t: seq<T>, pat: seq<T>, rep: seq<T>)
    requires pat != []
    requires ReplaceAll(t + pat, pat, rep) == ReplaceAll(t, pat, rep) + rep
    ensures ReplaceAll(pat + t + pat, pat, rep) == ReplaceAll(pat + t, pat, rep) + rep
  {
    var s, u := pat + t + pat, pat + t;
    assert s[..|pat|] == pat && s[|pat|..] == t + pat;
    assert u[..|pat|] == pat && u[|pat|..] == t;
    ReplaceAtMatch(s, pat, rep);
    ReplaceAtMatch(u, pat, rep);
    var x := ReplaceAll(t, pat, rep);
    assert rep + (x + rep) == (rep + x) + rep;
  }

  /** The step of ReplaceAfterSep where the pattern does not start p: p is [c] + t. */
  lemma AfterSepMiss<T>(c: T, t: seq<T>, pat: seq<T>, rep: seq<T>)
    requires pat != [] && ([c] + t + pat)[..|pat|] != pat
    requires ReplaceAll(t + pat, pat, rep) == ReplaceAll(t, pat, rep) + rep
    ensures ReplaceAll([c] + t + pat, pat, rep) == ReplaceAll([c] + t, pat, rep) + rep
  {
    var s, u := [c] + t + pat, [c] + t;
    assert s[0] == c && s[1..] == t + pat;
    assert u[0] == c && u[1..] == t;
    ReplaceAtMiss(s, pat, rep);
    if |u| < |pat| {
      ShortUnchanged(u, pat, rep);
    } else {
      assert u[..|pat|] == s[..|pat|];
      ReplaceAtMiss(u, pat, rep);
    }
    var x := ReplaceAll(t, pat, rep);
    assert [c] + (x + rep) == ([c] + x) + rep;
  }

  /** Text shorter than the pattern, and its tail, come back unchanged. */
  lemma ShortUnchanged<T>(p: seq<T>, pat: seq<T>, rep: seq<T>)
    requires pat != [] && p != [] && |p| < |pat|
    ensures ReplaceAll(p, pat, rep) == [p[0]] + ReplaceAll(p[1..], pat, rep)
  {
    assert [p[0]] + p[1..] == p;
  }

  /** One step of ReplaceAll where the pattern starts the text. */
  lemma ReplaceAtMatch<T>(s: seq<T>, pat: seq<T>, rep: seq<T>)
    requires pat != [] && |pat| <= |s| && s[..|pat|] == pat
    ensures ReplaceAll(s, pat, rep) == rep + ReplaceAll(s[|pat|..], pat, rep)
  {
  }

  /** One step of ReplaceAll where the pattern does not start the text. */
  lemma ReplaceAtMiss<T>(s: seq<T>, pat: seq<T>, rep: seq<T>)
    requires pat != [] && |pat| <= |s| && s[..|pat|] != pat
    ensures ReplaceAll(s, pat, rep) == [s[0]] + ReplaceAll(s[1..], pat, rep)
  {
  }

  /**
   * Every occurrence is replaced, scanning from the left: when the first
   * occurrence of a non-empty pattern starts right after a, a is kept, the
   * occurrence becomes rep, and replacement goes on in what follows it.
   */
  lemma {:induction false} ReplaceLeftmost<T>(a: seq<T>, pat: seq<T>, b: seq<T>, rep: seq<T>)
    requires pat != []
    requires forall i | 0 <= i < |a| :: !OccursAt(a + pat + b, pat, i)
    ensures Replace(a + pat + b, pat, rep) == a + rep + Replace(b, pat, rep)
    decreases |a|
  {
    var s := a + pat + b;
    var tail := Replace(b, pat, rep);
    assert Replace(s, pat, rep) == ReplaceAll(s, pat, rep);
    assert tail == ReplaceAll(b, pat, rep);
    if a == [] {
      assert s == pat + b;
      ReplaceAtMatch(s, pat, rep);
      assert s[|pat|..] == b;
    } else {
      var a' := a[1..];
      assert s[..|pat|] != pat by {
        assert !OccursAt(s, pat, 0);
        assert s[0..|pat|] == s[..|pat|];
      }
      ReplaceAtMiss(s, pat, rep);
      assert s[1..] == a' + pat + b;
      NoMatchInTail(a, pat, b);
      ReplaceLeftmost(a', pat, b, rep);
      assert ReplaceAll(s[1..], pat, rep) == a' + rep + tail;
      assert [s[0]] + (a' + rep + tail) == ([a[0]] + a') + rep + tail;
      assert [a[0]] + a' == a;
    }
  }

  lemma NoMatchInTail<T>(a: seq<T>, pat: seq<T>, b: seq<T>)
    requires a != []
    requires forall i | 0 <= i < |a| :: !OccursAt(a + pat + b, pat, i)
    ensures forall i | 0 <= i < |a| - 1 :: !OccursAt(a[1..] + pat + b, pat, i)
  {
    var s := a + pat + b;
    assert s[1..] == a[1..] + pat + b;
    forall i | 0 <= i < |a| - 1
      ensures !OccursAt(a[1..] + pat + b, pat, i)
    {
      assert !OccursAt(s, pat, i + 1);
      assert s[i + 1..i + 1 + |pat|] == s[1..][i..i + |pat|];
    }
  }

  /** Both occurrences of "a" in "a/b/a" are replaced, not only the last. */
  lemma ReplaceEveryOccurrence()
    ensures Replace("a/b/a", "a", "X") == "X/b/X"
  {
    ReplaceLeftmost("", "a", "/b/a", "X");
    ReplaceLeftmost("/b/", "a", "", "X");
    assert "/b/a" == "/b/" + "a" + "";
  }

  /**
   * Putting rep in place of the last segment: the last segment of the result
   * is that of rep, whatever else the replacement changed (the last segment
   * may also occur earlier, or be empty); so it is rep itself when rep holds
   * no separator.
   */
  lemma SpliceLastSegment<T>(url: seq<T>, sep: T, rep: seq<T>)
    ensures LastSegment(Replace(url, LastSegment(url, sep), rep), sep) == LastSegment(rep, sep)
  {
    if LastSegment(url, sep) == [] {
      SpliceEmptySegment(url, sep, rep);
    } else {
      SpliceSegment(url, sep, rep);
    }
  }

  /** An empty last segment: url is empty or ends in a separator, and rep goes everywhere. */
  lemma SpliceEmptySegment<T>(url: seq<T>, sep: T, rep: seq<T>)
    requires LastSegment(url, sep) == []
    ensures LastSegment(Replace(url, [], rep), sep) == LastSegment(rep, sep)
  {
    var link := Replace(url, [], rep);
    if url == [] {
      assert Interleave(url, rep) == [];
      assert link == rep;
    } else {
      InterleaveLast(url, rep);
      var front := rep + Interleave(url[..|url| - 1], rep);
      assert url[|url| - 1] == sep;
      assert link == front + [sep] + rep;
      LastSegmentAfterSep(front, sep, rep);
    }
  }

  lemma SpliceSegment<T>(url: seq<T>, sep: T, rep: seq<T>)
    requires LastSegment(url, sep) != []
    ensures LastSegment(Replace(url, LastSegment(url, sep), rep), sep) == LastSegment(rep, sep)
  {
    var seg := LastSegment(url, sep);
    var p := url[..|url| - |seg|];
    assert url == p + seg;
    ReplaceAfterSep(p, sep, seg, rep);
    var q := ReplaceAll(p, seg, rep);
    if p == [] {
      assert q + rep == rep;
    } else {
      ReplaceKeepsLastSep(p, sep, seg, rep);
      LastSegmentAfterTrailingSep(q, sep, rep);
    }
  }

  /** A trailing separator that is not part of the pattern survives the replacement. */
  lemma {:induction false} ReplaceKeepsLastSep<T>(p: seq<T>, sep: T, pat: seq<T>, rep: seq<T>)
    requires pat != [] && sep !in pat
    requires p != [] && p[|p| - 1] == sep
    ensures var q := ReplaceAll(p, pat, rep); q != [] && q[|q| - 1] == sep
    decreases |p|
  {
    if |p| < |pat| {
    } else if p[..|pat|] == pat {
      MatchStopsAtSep(p, |p| - 1, sep, pat);
      ReplaceKeepsLastSep(p[|pat|..], sep, pat, rep);
    } else if |p| > 1 {
      ReplaceKeepsLastSep(p[1..], sep, pat, rep);
    } else {
      assert p[1..] == [];
    }
  }

  /** A match of a separator-free pattern at the start ends before any separator. */
  lemma MatchStopsAtSep<T>(x: seq<T>, k: int, sep: T, pat: seq<T>)
    requires 0 <= k < |x| && x[k] == sep && sep !in pat
    requires |pat| <= |x| && x[..|pat|] == pat
    ensures |pat| <= k
  {
    assert forall i | 0 <= i < |pat| :: pat[i] == x[i];
  }

  /**
   * When the last segment is non-empty and occurs nowhere before it, the
   * replacement swaps exactly that segment for rep.
   */
  lemma SpliceWhenUnique<T>(url: seq<T>, sep: T, rep: seq<T>)
    requires LastSegment(url, sep) != []
    requires !Occurs(url[..|url| - |LastSegment(url, sep)|], LastSegment(url, sep))
    ensures Replace(url, LastSegment(url, sep), rep) == url[..|url| - |LastSegment(url, sep)|] + rep
  {
    var seg := LastSegment(url, sep);
    var p := url[..|url| - |seg|];
    assert url == p + seg;
    ReplaceAfterSep(p, sep, seg, rep);
    ReplaceAllAbsent(p, seg, rep);
  }
}
