/**
 Python's `str` operations that the name derivation of download_image.py uses,
 each for a one-character separator: `rstrip(c)`, `split(c)` and its inverse
 `c.join(parts)`, `split(c)[-1]` and `rsplit(c, 1)`.
 */
module PyStr {

  /** `k` copies of `c`: Python's `c * k`. */
  function Repeat(c: char, k: nat): (r: string)
    ensures |r| == k
    ensures forall i :: 0 <= i < k ==> r[i] == c
  {
    if k == 0 then [] else Repeat(c, k - 1) + [c]
  }

  /** `s` with every trailing `c` removed: Python's `s.rstrip(c)`. */
  function RStrip(s: string, c: char): (r: string)
    ensures |r| <= |s| && r == s[..|r|]
    ensures r == [] || r[|r| - 1] != c
    ensures forall i :: |r| <= i < |s| ==> s[i] == c
  {
    if s != [] && s[|s| - 1] == c then RStrip(s[..|s| - 1], c) else s
  }

  /** The three facts RStrip ensures determine its result. */
  lemma RStripUnique(s: string, c: char, t: string)
    requires |t| <= |s| && t == s[..|t|]
    requires t == [] || t[|t| - 1] != c
    requires forall i :: |t| <= i < |s| ==> s[i] == c
    ensures t == RStrip(s, c)
  {
  }

  /** Every character of `s` is `c`. */
  predicate AllOf(s: string, c: char) {
    forall i :: 0 <= i < |s| ==> s[i] == c
  }

  /** `s.rstrip(c)` is empty exactly when `s` is made only of `c`. */
  lemma RStripEmpty(s: string, c: char)
    ensures RStrip(s, c) == [] <==> AllOf(s, c)
  {
    if RStrip(s, c) != [] {
      var r := RStrip(s, c);
      assert s[|r| - 1] == r[|r| - 1];
    }
  }

  /** Appending any number of `c` does not change `s.rstrip(c)`. */
  lemma RStripIgnoresTrailing(s: string, c: char, k: nat)
    ensures RStrip(s + Repeat(c, k), c) == RStrip(s, c)
  {
    var r := RStrip(s, c);
    var t := s + Repeat(c, k);
    assert t[..|r|] == s[..|r|];
    forall i | |r| <= i < |t| ensures t[i] == c {
      if i >= |s| {
        assert t[i] == Repeat(c, k)[i - |s|];
      }
    }
    RStripUnique(t, c, r);
  }

  /** Python's `c.join(parts)` for a non-empty list `parts`. */
  function Join(parts: seq<string>, c: char): (r: string)
    requires |parts| >= 1
  {
    if |parts| == 1 then parts[0]
    else Join(parts[..|parts| - 1], c) + [c] + parts[|parts| - 1]
  }

  /** A join ends with its last piece, and with `c` before it when there are two pieces or more. */
  lemma JoinEndsWithLast(parts: seq<string>, c: char)
    requires |parts| >= 1
    ensures var r, last := Join(parts, c), parts[|parts| - 1];
      |r| >= |last| && r[|r| - |last|..] == last &&
      (|parts| >= 2 ==> |r| > |last| && r[|r| - |last| - 1] == c)
  {
  }

  /** Python's `s.split(c)`: the pieces of `s` between the occurrences of `c`. */
  function Split(s: string, c: char): (r: seq<string>)
    ensures |r| >= 1
    ensures forall i :: 0 <= i < |r| ==> c !in r[i]
    ensures Join(r, c) == s
  {
    if s == [] then [[]]
    else
      var p := Split(s[..|s| - 1], c);
      var x := s[|s| - 1];
      assert s == s[..|s| - 1] + [x];
      if x == c then
        JoinAppendEmpty(p, c);
        p + [[]]
      else
        JoinExtendLast(p, c, x);
        CharFreeExtendLast(p, c, x);
        p[..|p| - 1] + [p[|p| - 1] + [x]]
  }

  /** Adding an empty last piece appends `c` to the join. */
  lemma JoinAppendEmpty(parts: seq<string>, c: char)
    requires |parts| >= 1
    ensures Join(parts + [[]], c) == Join(parts, c) + [c]
  {
    assert (parts + [[]])[..|parts|] == parts;
  }

  /** Extending the last piece by a character other than `c` keeps every piece free of `c`. */
  lemma CharFreeExtendLast(parts: seq<string>, c: char, x: char)
    requires |parts| >= 1 && x != c
    requires forall i :: 0 <= i < |parts| ==> c !in parts[i]
    ensures var q := parts[..|parts| - 1] + [parts[|parts| - 1] + [x]];
      forall i :: 0 <= i < |q| ==> c !in q[i]
  {
    var n := |parts|;
    var q := parts[..n - 1] + [parts[n - 1] + [x]];
    forall i | 0 <= i < |q| ensures c !in q[i] {
      if i < n - 1 {
        assert q[i] == parts[i];
      } else {
        assert q[i] == parts[n - 1] + [x];
      }
    }
  }

  /** Replacing the last piece `p` by `p + [x]` appends `x` to the join. */
  lemma JoinExtendLast(parts: seq<string>, c: char, x: char)
    requires |parts| >= 1
    ensures Join(parts[..|parts| - 1] + [parts[|parts| - 1] + [x]], c) == Join(parts, c) + [x]
  {
    var n := |parts|;
    var q := parts[..n - 1] + [parts[n - 1] + [x]];
    assert q[..n - 1] == parts[..n - 1];
  }

  /** Dropping the last character `x` of a non-empty last piece. */
  lemma ShortenLast(parts: seq<string>, c: char) returns (shorter: seq<string>, x: char)
    requires |parts| >= 1 && parts[|parts| - 1] != []
    requires forall i :: 0 <= i < |parts| ==> c !in parts[i]
    ensures |shorter| == |parts| && x != c
    ensures parts == shorter[..|shorter| - 1] + [shorter[|shorter| - 1] + [x]]
    ensures forall i :: 0 <= i < |shorter| ==> c !in shorter[i]
    ensures Join(shorter, c) + [x] == Join(parts, c)
  {
    var n := |parts|;
    var last := parts[n - 1];
    x := last[|last| - 1];
    assert x in last;
    shorter := parts[..n - 1] + [last[..|last| - 1]];
    assert shorter[..n - 1] == parts[..n - 1];
    assert shorter[n - 1] + [x] == last;
    assert parts == shorter[..n - 1] + [shorter[n - 1] + [x]];
    JoinExtendLast(shorter, c, x);
    forall i | 0 <= i < n ensures c !in shorter[i] {
      if i == n - 1 {
        assert forall ch :: ch in shorter[i] ==> ch in last;
      }
    }
  }

  /** Split of a string that ends in the separator: a new empty last piece. */
  lemma SplitSnocSeparator(s: string, c: char)
    ensures Split(s + [c], c) == Split(s, c) + [[]]
  {
    assert (s + [c])[..|s|] == s;
  }

  /** Split of a string that ends in another character: it extends the last piece. */
  lemma SplitSnocOther(s: string, c: char, x: char)
    requires x != c
    ensures var p := Split(s, c); Split(s + [x], c) == p[..|p| - 1] + [p[|p| - 1] + [x]]
  {
    assert (s + [x])[..|s|] == s;
  }

  /**
   Split is the only way to cut `s` into `c`-free pieces whose join is `s`:
   the model agrees with Python's definition of `str.split`.
   */
  lemma {:induction false} SplitUnique(s: string, c: char, parts: seq<string>)
    requires |parts| >= 1
    requires forall i :: 0 <= i < |parts| ==> c !in parts[i]
    requires Join(parts, c) == s
    ensures parts == Split(s, c)
    decreases |s|, 1
  {
    if s == [] {
      assert |parts| == 1;
    } else if parts[|parts| - 1] == [] {
      SplitUniqueEmptyLast(s, c, parts);
    } else {
      SplitUniqueFullLast(s, c, parts);
    }
  }

  lemma {:induction false} SplitUniqueEmptyLast(s: string, c: char, parts: seq<string>)
    requires s != [] && |parts| >= 1 && parts[|parts| - 1] == []
    requires forall i :: 0 <= i < |parts| ==> c !in parts[i]
    requires Join(parts, c) == s
    ensures parts == Split(s, c)
    decreases |s|, 0
  {
    var n := |parts|;
    var front := parts[..n - 1];
    assert n >= 2;
    assert s == Join(front, c) + [c];
    SplitUnique(Join(front, c), c, front);
    SplitSnocSeparator(Join(front, c), c);
    assert parts == front + [[]];
  }

  lemma {:induction false} SplitUniqueFullLast(s: string, c: char, parts: seq<string>)
    requires s != [] && |parts| >= 1 && parts[|parts| - 1] != []
    requires forall i :: 0 <= i < |parts| ==> c !in parts[i]
    requires Join(parts, c) == s
    ensures parts == Split(s, c)
    decreases |s|, 0
  {
    var shorter, x := ShortenLast(parts, c);
    var s' := Join(shorter, c);
    SplitUnique(s', c, shorter);
    SplitSnocOther(s', c, x);
  }

  /**
   The text after the last `c` in `s`, or the whole of `s` when it holds no
   `c`: Python's `s.split(c)[-1]` (see LastSegmentIsLastOfSplit).
   */
  function LastSegment(s: string, c: char): (r: string)
    ensures |r| <= |s| && r == s[|s| - |r|..]
    ensures c !in r
    ensures |r| == |s| || s[|s| - |r| - 1] == c
  {
    if s == [] || s[|s| - 1] == c then []
    else LastSegment(s[..|s| - 1], c) + [s[|s| - 1]]
  }

  /** LastSegment is the last piece of Split. */
  lemma {:induction false} LastSegmentIsLastOfSplit(s: string, c: char)
    ensures var parts := Split(s, c); LastSegment(s, c) == parts[|parts| - 1]
  {
    var parts := Split(s, c);
    JoinEndsWithLast(parts, c);
    assert parts[|parts| - 1] in parts;
    LastSegmentUnique(s, c, parts[|parts| - 1]);
  }

  /** The three facts LastSegment ensures determine its result. */
  lemma LastSegmentUnique(s: string, c: char, t: string)
    requires |t| <= |s| && t == s[|s| - |t|..]
    requires c !in t
    requires |t| == |s| || s[|s| - |t| - 1] == c
    ensures t == LastSegment(s, c)
  {
  }

  /** The text after the last `c` of `front + [c] + back`, when `back` holds no `c`, is `back`. */
  lemma LastSegmentAfter(front: string, c: char, back: string)
    requires c !in back
    ensures LastSegment(front + [c] + back, c) == back
  {
    var s := front + [c] + back;
    assert s[|front|] == c;
    assert s[|s| - |back|..] == back;
    LastSegmentUnique(s, c, back);
  }

  /**
   Python's `s.rsplit(c, 1)`: `[s]` when `s` holds no `c`; otherwise the text
   before and the text after the last `c`.
   */
  function RSplitOnce(s: string, c: char): (r: seq<string>)
    ensures c !in s ==> r == [s]
    ensures c in s ==> |r| == 2 && r[0] + [c] + r[1] == s && c !in r[1]
  {
    if c !in s then [s]
    else
      var ext := LastSegment(s, c);
      assert |ext| < |s|;
      var base := s[..|s| - |ext| - 1];
      assert s == base + [c] + ext;
      [base, ext]
  }

  /** `rsplit(c, 1)` cuts at the last `c`: any `base + [c] + ext` with no `c` in `ext` is its result. */
  lemma RSplitOnceAtLast(s: string, c: char, base: string, ext: string)
    requires s == base + [c] + ext && c !in ext
    ensures RSplitOnce(s, c) == [base, ext]
  {
    assert s[|base|] == c && c in s;
    assert s[..|base|] == base && s[|base| + 1..] == ext;
    LastSegmentUnique(s, c, ext);
  }
}
