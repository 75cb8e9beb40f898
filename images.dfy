/**
 * The image-share analyzer: which requests are for images, how many of them
 * there are, and what share of all requests they make up.
 */
module Images {
  import opened LogRecords

  /** Whether `c` matches the lower-case ASCII letter `letter` of the pattern when
      case is ignored: the letter itself, its upper-case form, and for `i` also
      the dotted capital I (U+0130) and the dotless small i (U+0131), which the
      regular-expression engine treats as case variants of `i`. */
  predicate MatchesLetter(c: char, letter: char)
    requires 'a' <= letter <= 'z'
  {
    c == letter
    || c as int == letter as int - 32
    || (letter == 'i' && (c == '\U{130}' || c == '\U{131}'))
  }

  /** `ext` spells `word` (lower-case ASCII letters), case ignored. */
  predicate SpellsIgnoringCase(ext: string, word: string)
    requires forall i :: 0 <= i < |word| ==> 'a' <= word[i] <= 'z'
  {
    |ext| == |word| && forall i :: 0 <= i < |ext| ==> MatchesLetter(ext[i], word[i])
  }

  predicate IsImageExtension(ext: string)
  {
    SpellsIgnoringCase(ext, "jpg") || SpellsIgnoringCase(ext, "gif") || SpellsIgnoringCase(ext, "png")
  }

  /** The image pattern `.*\.(jpg|gif|png)$`, matched from the start of the path
      with case ignored: `.` does not cross a line break and `$` matches at the
      end or just before a final line break. */
  predicate IsImagePath(path: string)
    ensures IsImagePath(path) ==> |path| >= 4 && forall k :: 0 <= k < |path| - 1 ==> path[k] != '\n'
  {
    var body := if |path| > 0 && path[|path| - 1] == '\n' then path[..|path| - 1] else path;
    '\n' !in body && |body| >= 4 && body[|body| - 4] == '.' && IsImageExtension(body[|body| - 3..])
  }

  /** The number of image requests, one per record whose path is an image path. */
  function ImageCount(data: seq<LogRecord>): (n: nat)
    ensures n <= |data|
  {
    if data == [] then 0
    else ImageCount(data[..|data| - 1]) + (if IsImagePath(data[|data| - 1].path) then 1 else 0)
  }

  /** The positions of the image requests. */
  function ImagePositions(data: seq<LogRecord>): set<nat>
  {
    set i: nat | i < |data| && IsImagePath(data[i].path)
  }

  /** What the analyzer reports: nothing for no records, else the image count and the total. */
  datatype ImageShare = NoImageData | Share(images: nat, total: nat)

  function ImageReport(data: seq<LogRecord>): (r: ImageShare)
    ensures r.NoImageData? <==> data == []
    ensures r.Share? ==> r.total == |data| > 0 && r.images <= r.total
    ensures r.Share? ==> r.images == |ImagePositions(data)|
  {
    ImageCountPositions(data);
    if data == [] then NoImageData else Share(ImageCount(data), |data|)
  }

  /** The percentage `images / total * 100`, taken as 0 when the total is 0,
      in exact arithmetic. */
  function Percent(images: nat, total: nat): (p: real)
    ensures total > 0 ==> p * (total as real) == 100.0 * (images as real)
    ensures total == 0 ==> p == 0.0
  {
    if total > 0 then (images as real / total as real) * 100.0 else 0.0
  }

  // ---------------------------------------------------------------------------
  // Properties

  /** A line-break-free stem, a dot and one of the three extensions in any case,
      optionally followed by one line break, is an image path. */
  lemma ImagePathFromParts(stem: string, ext: string, nl: string)
    requires '\n' !in stem && IsImageExtension(ext) && (nl == "" || nl == "\n")
    ensures IsImagePath(stem + "." + ext + nl)
  {
    var b := stem + "." + ext;
    var path := b + nl;
    assert |ext| == 3;
    assert b[|b| - 1] == ext[2];
    assert ext[2] != '\n';
    if nl == "\n" {
      assert path[|path| - 1] == '\n' && path[..|path| - 1] == b;
    } else {
      assert path == b;
    }
    forall k | 0 <= k < |b| ensures b[k] != '\n' {
      if k < |stem| { assert b[k] == stem[k]; }
      else if k > |stem| { assert b[k] == ext[k - |stem| - 1]; }
    }
    assert b[|b| - 4] == '.' && b[|b| - 3..] == ext;
  }

  /** Conversely, every image path has that shape. */
  lemma ImagePathToParts(path: string)
    requires IsImagePath(path)
    ensures exists stem: string, ext: string, nl: string ::
              path == stem + "." + ext + nl && '\n' !in stem && IsImageExtension(ext) && (nl == "" || nl == "\n")
  {
    var nl: string := if |path| > 0 && path[|path| - 1] == '\n' then "\n" else "";
    var body := path[..|path| - |nl|];
    assert path == body + nl;
    var stem, ext := body[..|body| - 4], body[|body| - 3..];
    assert body == stem + "." + ext;
    forall k | 0 <= k < |stem| ensures stem[k] != '\n' { assert stem[k] == body[k]; }
  }

  /** The image count is the number of positions holding an image request. */
  lemma {:induction false} ImageCountPositions(data: seq<LogRecord>)
    ensures ImageCount(data) == |ImagePositions(data)|
  {
    if data == [] {
      assert ImagePositions(data) == {};
    } else {
      var init := data[..|data| - 1];
      var n := |data| - 1;
      ImageCountPositions(init);
      ImagePositionsGrow(data);
    }
  }

  lemma ImagePositionsGrow(data: seq<LogRecord>)
    requires data != []
    ensures var n := |data| - 1;
            ImagePositions(data) ==
              ImagePositions(data[..n]) + (if IsImagePath(data[n].path) then {n} else {})
    ensures |data| - 1 !in ImagePositions(data[..|data| - 1])
  {
    var n := |data| - 1;
    var init := data[..n];
    var extra: set<nat> := if IsImagePath(data[n].path) then {n} else {};
    assert forall i :: 0 <= i < n ==> data[i] == init[i];
    assert ImagePositions(data) <= ImagePositions(init) + extra;
    assert ImagePositions(init) + extra <= ImagePositions(data);
  }

  /** For a share whose image count does not exceed its total, the percentage lies
      between 0 and 100, times the total it gives 100 times the image count, and it
      is 0 when the total is 0. */
  lemma PercentBounds(images: nat, total: nat)
    requires images <= total
    ensures 0.0 <= Percent(images, total) <= 100.0
    ensures Percent(images, total) * (total as real) == 100.0 * (images as real)
    ensures total == 0 ==> Percent(images, total) == 0.0
  {
    if total > 0 {
      var a, b := images as real, total as real;
      var q := a / b;
      RatioBounds(a, b);
      assert Percent(images, total) == q * 100.0;
      assert (q * 100.0) * b == 100.0 * (q * b);
    }
  }

  lemma RatioBounds(a: real, b: real)
    requires 0.0 <= a <= b && 0.0 < b
    ensures (a / b) * b == a && 0.0 <= a / b <= 1.0
  {
    var q := a / b;
    assert q * b == a;
  }
}
