/**
 * `String.Split(char)` and `String.Join(char, ...)` of .NET, on a single-character
 * separator and with the default options: every separator ends a segment and empty
 * segments are kept, so a string with n separators splits into n + 1 segments.
 */
module Text {

  /** `s.Split(c)`. */
  function Split(s: string, c: char): (segments: seq<string>)
    ensures |segments| >= 1
    ensures forall k :: 0 <= k < |segments| ==> c !in segments[k]
    decreases |s|
  {
    if s == [] then [[]]
    else
      var rest := Split(s[1..], c);
      if s[0] == c then [[]] + rest
      else [[s[0]] + rest[0]] + rest[1..]
  }

  /** `string.Join(sep, segments)`. */
  function Join(segments: seq<string>, sep: char): string
  {
    if |segments| == 0 then []
    else if |segments| == 1 then segments[0]
    else segments[0] + [sep] + Join(segments[1..], sep)
  }

  /** Some segment is empty. */
  predicate HasEmpty(segments: seq<string>) {
    exists k :: 0 <= k < |segments| && segments[k] == []
  }

  /** `c` occurs twice in a row somewhere in `s`. */
  predicate HasDoubled(s: string, c: char) {
    exists i :: 0 <= i < |s| - 1 && s[i] == c && s[i + 1] == c
  }

  /** Joining the segments with the separator gives back the string. */
  lemma {:induction false} JoinSplit(s: string, c: char)
    ensures Join(Split(s, c), c) == s
    decreases |s|
  {
    if s != [] {
      var rest := Split(s[1..], c);
      JoinSplit(s[1..], c);
      if s[0] == c {
        assert ([[]] + rest)[1..] == rest;
      } else {
        var segs := [[s[0]] + rest[0]] + rest[1..];
        if |rest| > 1 {
          assert segs[1..] == rest[1..];
          assert Join(rest, c) == rest[0] + [c] + Join(rest[1..], c);
        }
      }
    }
  }

  /** Splitting a string that starts with a separator-free prefix `a` glues `a` to the first segment. */
  lemma {:induction false} SplitFreePrefix(a: string, t: string, c: char)
    requires c !in a
    ensures Split(a + t, c) == [a + Split(t, c)[0]] + Split(t, c)[1..]
    decreases |a|
  {
    if a != [] {
      assert (a + t)[0] == a[0];
      assert (a + t)[1..] == a[1..] + t;
      SplitFreePrefix(a[1..], t, c);
      assert [a[0]] + (a[1..] + Split(t, c)[0]) == a + Split(t, c)[0];
    } else {
      var segs := Split(t, c);
      assert a + t == t && a + segs[0] == segs[0];
      assert segs == [segs[0]] + segs[1..];
    }
  }

  /** Splitting the join of separator-free segments gives back the segments. */
  lemma {:induction false} SplitJoin(segments: seq<string>, c: char)
    requires |segments| >= 1
    requires forall k :: 0 <= k < |segments| ==> c !in segments[k]
    ensures Split(Join(segments, c), c) == segments
    decreases |segments|
  {
    var h := segments[0];
    if |segments| == 1 {
      SplitFreePrefix(h, [], c);
      assert h + [] == h;
    } else {
      var tail := segments[1..];
      var j := Join(tail, c);
      SplitJoin(tail, c);
      assert Join(segments, c) == h + ([c] + j);
      SplitFreePrefix(h, [c] + j, c);
      assert ([c] + j)[1..] == j;
      assert Split([c] + j, c) == [[]] + tail;
      assert h + [] == h;
      assert [h] + tail == segments;
    }
  }

  /**
   * The first segment is the longest prefix without the separator: it is a prefix
   * of `s`, holds no `c`, and is either all of `s` or followed by a `c`.
   */
  lemma {:induction false} FirstSegment(s: string, c: char)
    ensures |Split(s, c)[0]| <= |s|
    ensures Split(s, c)[0] == s[..|Split(s, c)[0]|]
    ensures c !in Split(s, c)[0]
    ensures |Split(s, c)[0]| < |s| ==> s[|Split(s, c)[0]|] == c
    decreases |s|
  {
    if s != [] && s[0] != c {
      FirstSegment(s[1..], c);
    }
  }

  /** A non-empty list of segments has an empty one exactly when its head or some later one is empty. */
  lemma HasEmptyCons(segments: seq<string>)
    requires |segments| >= 1
    ensures HasEmpty(segments) <==> segments[0] == [] || HasEmpty(segments[1..])
  {
    if HasEmpty(segments) {
      var k :| 0 <= k < |segments| && segments[k] == [];
      if k > 0 { assert segments[1..][k - 1] == []; }
    }
    if HasEmpty(segments[1..]) {
      var k :| 0 <= k < |segments[1..]| && segments[1..][k] == [];
      assert segments[k + 1] == [];
    }
  }

  /** Two separators in a row in `[c] + t`: either `t` starts with `c` or has them itself. */
  lemma DoubledAfterSeparator(s: string, c: char)
    requires s != [] && s[0] == c
    ensures HasDoubled(s, c) <==> (|s| > 1 && s[1] == c) || HasDoubled(s[1..], c)
  {
    var t := s[1..];
    if HasDoubled(t, c) {
      var i :| 0 <= i < |t| - 1 && t[i] == c && t[i + 1] == c;
      assert s[i + 1] == c && s[i + 2] == c;
    }
    if HasDoubled(s, c) {
      var i :| 0 <= i < |s| - 1 && s[i] == c && s[i + 1] == c;
      if i > 0 { assert t[i - 1] == c && t[i] == c; }
    }
  }

  /** Two separators in a row in `[x] + t` with `x` not the separator: only inside `t`. */
  lemma DoubledAfterOther(s: string, c: char)
    requires s != [] && s[0] != c
    ensures HasDoubled(s, c) <==> HasDoubled(s[1..], c)
  {
    var t := s[1..];
    if HasDoubled(t, c) {
      var i :| 0 <= i < |t| - 1 && t[i] == c && t[i + 1] == c;
      assert s[i + 1] == c && s[i + 2] == c;
    }
    if HasDoubled(s, c) {
      var i :| 0 <= i < |s| - 1 && s[i] == c && s[i + 1] == c;
      assert t[i - 1] == c && t[i] == c;
    }
  }

  /**
   * A segment after the first is empty exactly when the string ends with the
   * separator or holds two separators in a row.
   */
  lemma {:induction false} LaterEmptySegment(s: string, c: char)
    ensures HasEmpty(Split(s, c)[1..]) <==>
      (s != [] && s[|s| - 1] == c) || HasDoubled(s, c)
    decreases |s|
  {
    if s != [] {
      var t := s[1..];
      var rest := Split(t, c);
      LaterEmptySegment(t, c);
      assert rest[0] == [] <==> t == [] || t[0] == c;
      if t != [] {
        assert s[|s| - 1] == t[|t| - 1];
      }
      if s[0] == c {
        assert Split(s, c)[1..] == rest;
        HasEmptyCons(rest);
        DoubledAfterSeparator(s, c);
      } else {
        assert Split(s, c)[1..] == rest[1..];
        DoubledAfterOther(s, c);
      }
    }
  }

  /**
   * Some segment is empty exactly when the string is empty, starts or ends with the
   * separator, or holds two separators in a row.
   */
  lemma EmptySegment(s: string, c: char)
    ensures HasEmpty(Split(s, c)) <==>
      s == [] || s[0] == c || s[|s| - 1] == c || HasDoubled(s, c)
  {
    var segs := Split(s, c);
    LaterEmptySegment(s, c);
    HasEmptyCons(segs);
    assert segs[0] == [] <==> s == [] || s[0] == c;
  }
}
