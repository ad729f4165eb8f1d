/**
 The output names of download_image.py: the fixed name of the "latest" copy
 and the dated name of the history copy, derived from the image URL and the
 date stamp.
 */
module DownloadImage {
  import opened PyStr
  import DateStamp

  /** The name of the copy that is overwritten on every run. */
  function FixedName(): (r: string)
    ensures r != [] && '/' !in r && '_' !in r
  {
    "image-latest.jpg"
  }

  /**
   The last `/`-separated segment of the URL once every trailing `/` is
   stripped, or "image.jpg" when that segment is empty.
   */
  function UrlTail(url: string): (r: string)
    ensures r != [] && '/' !in r
    ensures AllOf(url, '/') ==> r == "image.jpg"
    ensures !AllOf(url, '/') ==>
      var v := RStrip(url, '/');
      |r| <= |v| && r == v[|v| - |r|..] && (|r| == |v| || v[|v| - |r| - 1] == '/')
  {
    var v := RStrip(url, '/');
    var seg := LastSegment(v, '/');
    RStripEmpty(url, '/');
    if seg == [] then
      assert '/' !in "image.jpg";
      "image.jpg"
    else
      seg
  }

  /**
   The dated name built from a URL tail: the tail split at its last `.` with
   `_` and the stamp put before the extension, or "image_<stamp>.jpg" when the
   tail has no `.`.
   */
  function StampedName(tail: string, stamp: string): (r: string)
    ensures '_' in r
    ensures '/' !in tail && '/' !in stamp ==> '/' !in r
  {
    if '.' in tail then
      var parts := RSplitOnce(tail, '.');
      var r := parts[0] + "_" + stamp + "." + parts[1];
      assert r[|parts[0]|] == '_';
      assert forall ch :: ch in parts[0] || ch in parts[1] ==> ch in tail;
      r
    else
      var r := "image_" + stamp + ".jpg";
      assert r[5] == '_';
      r
  }

  /** A tail with no `.` gives "image_<stamp>.jpg". */
  lemma {:induction false} StampedNameOfPlainTail(tail: string, stamp: string)
    requires '.' !in tail
    ensures StampedName(tail, stamp) == "image_" + stamp + ".jpg"
  {
  }

  /**
   A tail with a `.` is cut at its last `.`: for the one way of writing the
   tail as `base + "." + ext` with no `.` in `ext`, the name is
   `base + "_" + stamp + "." + ext`.
   */
  lemma {:induction false} StampedNameOfDottedTail(tail: string, stamp: string, base: string, ext: string)
    requires tail == base + "." + ext && '.' !in ext
    ensures StampedName(tail, stamp) == base + "_" + stamp + "." + ext
  {
    assert tail[|base|] == '.';
    RSplitOnceAtLast(tail, '.', base, ext);
  }

  /** "image_<stamp>.jpg" is the `base + "_" + stamp + "." + ext` shape with base "image" and extension "jpg". */
  lemma {:induction false} FallbackNameShape(stamp: string)
    ensures "image" + "_" + stamp + "." + "jpg" == "image_" + stamp + ".jpg"
  {
    assert "image" + "_" == "image_";
    assert "image_" + stamp + "." + "jpg" == "image_" + stamp + ".jpg";
  }

  /** The fallback tail "image.jpg" gives "image_<stamp>.jpg", the same name as a tail without a `.`. */
  lemma {:induction false} StampedNameOfDefaultTail(stamp: string)
    ensures StampedName("image.jpg", stamp) == "image_" + stamp + ".jpg"
  {
    DefaultTailSplit(stamp);
    FallbackNameShape(stamp);
  }

  /** "image.jpg" splits at its only `.` into "image" and "jpg". */
  lemma {:induction false} DefaultTailSplit(stamp: string)
    ensures StampedName("image.jpg", stamp) == "image" + "_" + stamp + "." + "jpg"
  {
    StampedNameOfDottedTail("image.jpg", stamp, "image", "jpg");
  }

  /**
   Every stamped name is `base + "_" + stamp + "." + ext`, where `ext` is the
   text after the name's final `.` (and so holds no `.`).
   */
  lemma {:induction false} StampedNameParts(tail: string, stamp: string) returns (base: string)
    ensures var r := StampedName(tail, stamp);
      r == base + "_" + stamp + "." + LastSegment(r, '.')
  {
    var ext;
    if '.' in tail {
      var parts := RSplitOnce(tail, '.');
      base, ext := parts[0], parts[1];
    } else {
      base, ext := "image", "jpg";
      FallbackNameShape(stamp);
    }
    LastSegmentAfter(base + "_" + stamp, '.', ext);
  }

  /**
   The stamp sits right before the final `.` of a stamped name, preceded by
   `_`: the `|stamp|` characters before the extension are the stamp.
   */
  lemma {:induction false} StampBeforeExtension(tail: string, stamp: string)
    ensures var r := StampedName(tail, stamp); var ext := LastSegment(r, '.');
      |r| >= |ext| + |stamp| + 2 &&
      r[|r| - |ext| - 1] == '.' && r[|r| - |ext| - |stamp| - 2] == '_' &&
      r[|r| - |ext| - |stamp| - 1..|r| - |ext| - 1] == stamp
  {
    var base := StampedNameParts(tail, stamp);
    StampedLayout(StampedName(tail, stamp), base, stamp);
  }

  /** Where the `_`, the stamp and the `.` stand in `base + "_" + stamp + "." + ext`, with `ext` the text after the final `.`. */
  lemma {:induction false} StampedLayout(r: string, base: string, stamp: string)
    requires r == base + "_" + stamp + "." + LastSegment(r, '.')
    ensures var ext := LastSegment(r, '.');
      |r| >= |ext| + |stamp| + 2 &&
      r[|r| - |ext| - 1] == '.' && r[|r| - |ext| - |stamp| - 2] == '_' &&
      r[|r| - |ext| - |stamp| - 1..|r| - |ext| - 1] == stamp
  {
    var front := base + "_" + stamp;
    assert r == front + "." + LastSegment(r, '.');
    assert r[..|front|] == front;
    assert front[|base| + 1..] == stamp;
  }

  /** The dated name of download_image.py: the stamped name of the URL's tail. */
  function DatedName(url: string, stamp: string): (r: string)
    ensures '_' in r
    ensures '/' !in stamp ==> '/' !in r
  {
    StampedName(UrlTail(url), stamp)
  }

  /** Trailing slashes on the URL do not change the dated name. */
  lemma {:induction false} DatedNameIgnoresTrailingSlashes(url: string, k: nat, stamp: string)
    ensures DatedName(url + Repeat('/', k), stamp) == DatedName(url, stamp)
  {
    RStripIgnoresTrailing(url, '/', k);
  }

  /** A URL made only of slashes (or empty) falls back to "image.jpg", giving "image_<stamp>.jpg". */
  lemma {:induction false} DatedNameOfSlashesOnly(url: string, stamp: string)
    requires AllOf(url, '/')
    ensures DatedName(url, stamp) == "image_" + stamp + ".jpg"
  {
    StampedNameOfDefaultTail(stamp);
  }

  /** The date can be read back from the ten characters before the dated name's final `.`. */
  lemma {:induction false} DatedNameEmbedsStamp(url: string, y: nat, m: nat, d: nat)
    requires y <= 9999 && 1 <= m <= 12 && 1 <= d <= 31
    ensures var r := DatedName(url, DateStamp.Stamp(y, m, d)); var ext := LastSegment(r, '.');
      |r| >= |ext| + 12 &&
      DateStamp.ParseStamp(r[|r| - |ext| - 11..|r| - |ext| - 1]) == DateStamp.Some((y, m, d))
  {
    var stamp := DateStamp.Stamp(y, m, d);
    var base := DatedNameBase(url, stamp);
    EmbeddedStampParses(DatedName(url, stamp), base, y, m, d);
  }

  /** Every dated name is `base + "_" + stamp + "." + ext`, where `ext` is the text after its final `.`. */
  lemma {:induction false} DatedNameBase(url: string, stamp: string) returns (base: string)
    ensures var r := DatedName(url, stamp);
      r == base + "_" + stamp + "." + LastSegment(r, '.')
  {
    base := StampedNameParts(UrlTail(url), stamp);
  }

  /** In `base + "_" + stamp + "." + ext`, the ten characters before the extension parse back to the stamp's date. */
  lemma {:induction false} EmbeddedStampParses(r: string, base: string, y: nat, m: nat, d: nat)
    requires y <= 9999 && 1 <= m <= 12 && 1 <= d <= 31
    requires r == base + "_" + DateStamp.Stamp(y, m, d) + "." + LastSegment(r, '.')
    ensures var ext := LastSegment(r, '.');
      |r| >= |ext| + 12 &&
      DateStamp.ParseStamp(r[|r| - |ext| - 11..|r| - |ext| - 1]) == DateStamp.Some((y, m, d))
  {
    StampedLayout(r, base, DateStamp.Stamp(y, m, d));
    DateStamp.StampRoundTrip(y, m, d);
  }

  /**
   With a slash-free stamp the dated name is one plain path component
   (non-empty, no `/`, neither `.` nor `..`), so on POSIX `out / dated_name`
   names a file directly inside `out`.
   */
  lemma {:induction false} DatedNameIsPathComponent(url: string, stamp: string)
    requires '/' !in stamp
    ensures var r := DatedName(url, stamp); r != [] && '/' !in r && r != "." && r != ".."
  {
    assert '_' !in "." && '_' !in "..";
  }

  /** The dated name never collides with the fixed name: it always holds `_`, the fixed name never. */
  lemma {:induction false} DatedNameDiffersFromFixed(url: string, stamp: string)
    ensures DatedName(url, stamp) != FixedName()
  {
    assert '_' !in FixedName();
  }

  /** The dated names of two different days differ, for any URL. */
  lemma {:induction false} DatedNamesOfDistinctDaysDiffer(url: string, y1: nat, m1: nat, d1: nat, y2: nat, m2: nat, d2: nat)
    requires y1 <= 9999 && 1 <= m1 <= 12 && 1 <= d1 <= 31
    requires y2 <= 9999 && 1 <= m2 <= 12 && 1 <= d2 <= 31
    requires (y1, m1, d1) != (y2, m2, d2)
    ensures DatedName(url, DateStamp.Stamp(y1, m1, d1)) != DatedName(url, DateStamp.Stamp(y2, m2, d2))
  {
    var s1, s2 := DateStamp.Stamp(y1, m1, d1), DateStamp.Stamp(y2, m2, d2);
    StampBeforeExtension(UrlTail(url), s1);
    StampBeforeExtension(UrlTail(url), s2);
    if DatedName(url, s1) == DatedName(url, s2) {
      DateStamp.StampInjective(y1, m1, d1, y2, m2, d2);
    }
  }
}
