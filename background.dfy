/** The splash page background: the table of image sizes the loader knows,
    the choice of the smallest one that covers the screen, the url of the
    chosen image, and the files the background generator writes. */
module Backgrounds {
  import opened Text
  import opened Lists

  /** `sizes` of the loader: width and height in pixels. */
  const LoaderSizes: seq<(int, int)> := [
    (320, 568), (375, 667), (390, 844), (393, 852), (414, 896),
    (360, 640), (412, 915), (667, 375), (896, 414),
    (768, 1024), (1024, 768), (800, 1280),
    (1366, 768), (1440, 900), (1536, 864), (1600, 900),
    (1920, 1080), (2560, 1440), (3440, 1440), (3840, 2160)]

  /** `sizes` of the background generator. */
  const WrittenSizes: seq<(int, int)> := [
    (320, 568), (375, 667), (390, 844), (393, 852), (414, 896),
    (360, 640), (412, 915),
    (667, 375), (896, 414),
    (768, 1024), (1024, 768), (800, 1280),
    (1366, 768), (1440, 900), (1536, 864), (1600, 900),
    (1920, 1080), (2560, 1440), (3440, 1440), (3840, 2160)]

  /** The loader knows exactly the sizes the generator writes, in the same
      order. */
  lemma LoaderMatchesWriter()
    ensures LoaderSizes == WrittenSizes
    ensures LoaderSizes[|LoaderSizes| - 1] == (3840, 2160)
  {
  }

  function Area(s: (int, int)): int
  {
    s.0 * s.1
  }

  /** A size at least as wide as `w` and at least as high as `h`. */
  predicate Fits(s: (int, int), w: int, h: int)
  {
    s.0 >= w && s.1 >= h
  }

  /** The condition of the loader's `filter`. */
  function Covers(w: int, h: int): ((int, int)) -> bool
  {
    (s: (int, int)) => Fits(s, w, h)
  }

  /** Inserts `x` before the first element of no smaller area: the step of
      a stable sort by area where `x` came before every element of `t`. */
  function Insert(x: (int, int), t: seq<(int, int)>): (r: seq<(int, int)>)
    ensures |r| == |t| + 1 && multiset(r) == multiset(t) + multiset{x}
    ensures r[0] == (if t == [] || Area(x) <= Area(t[0]) then x else t[0])
  {
    if t == [] || Area(x) <= Area(t[0]) then [x] + t
    else
      assert t == [t[0]] + t[1..];
      [t[0]] + Insert(x, t[1..])
  }

  /** `sort((a, b) => area(a) - area(b))`: a stable sort by area. */
  function SortByArea(s: seq<(int, int)>): (r: seq<(int, int)>)
    ensures |r| == |s| && multiset(r) == multiset(s)
  {
    if s == [] then []
    else
      assert s == [s[0]] + s[1..];
      Insert(s[0], SortByArea(s[1..]))
  }

  /** What `SortedHead` establishes about index `k` of `s`. */
  predicate BestAt(s: seq<(int, int)>, w: int, h: int, k: nat)
  {
    k < |s| && Fits(s[k], w, h)
    && (forall j :: 0 <= j < |s| && Fits(s[j], w, h) ==> Area(s[k]) <= Area(s[j]))
    && (forall j :: 0 <= j < k && Fits(s[j], w, h) ==> Area(s[j]) > Area(s[k]))
  }

  /** `k` is best in `s` and names the head of its sorted covering sizes. */
  predicate HeadAt(s: seq<(int, int)>, w: int, h: int, k: nat)
  {
    BestAt(s, w, h, k) && SortByArea(Filter(s, Covers(w, h))) != []
    && s[k] == SortByArea(Filter(s, Covers(w, h)))[0]
  }

  /** A first size that does not fit changes nothing but the index. */
  lemma HeadAfterSkip(s: seq<(int, int)>, w: int, h: int, k: nat)
    requires s != [] && !Fits(s[0], w, h) && HeadAt(s[1..], w, h, k)
    ensures HeadAt(s, w, h, k + 1)
  {
    BestAtShift(s, w, h, k);
    assert s == [s[0]] + s[1..];
    assert Filter(s, Covers(w, h)) == Filter(s[1..], Covers(w, h));
  }

  /** A first size that is the only one to fit is the head. */
  lemma HeadOnlyFit(s: seq<(int, int)>, w: int, h: int)
    requires s != [] && Fits(s[0], w, h)
    requires forall i :: 1 <= i < |s| ==> !Fits(s[i], w, h)
    ensures HeadAt(s, w, h, 0)
  {
    var rest := s[1..];
    assert forall i :: 0 <= i < |rest| ==> rest[i] == s[i + 1];
    FilterNoneSelected(rest, Covers(w, h));
    assert s == [s[0]] + rest;
    assert Filter(s, Covers(w, h)) == [s[0]];
    assert SortByArea([s[0]]) == Insert(s[0], SortByArea([]));
  }

  /** With a first size that fits, the sorted covering sizes are those of
      the rest with the first size inserted. */
  lemma SortedWithFirst(s: seq<(int, int)>, w: int, h: int)
    requires s != [] && Fits(s[0], w, h)
    ensures SortByArea(Filter(s, Covers(w, h))) == Insert(s[0], SortByArea(Filter(s[1..], Covers(w, h))))
  {
    var f, rest := Covers(w, h), s[1..];
    assert s == [s[0]] + rest;
    assert Filter(s, f) == [s[0]] + Filter(rest, f);
    assert ([s[0]] + Filter(rest, f))[1..] == Filter(rest, f);
  }

  /** A first size that fits and is no larger than the head of the rest is
      the head. */
  lemma HeadIsFirst(s: seq<(int, int)>, w: int, h: int, k: nat)
    requires s != [] && Fits(s[0], w, h) && HeadAt(s[1..], w, h, k) && Area(s[0]) <= Area(s[1..][k])
    ensures HeadAt(s, w, h, 0)
  {
    SortedWithFirst(s, w, h);
    assert forall j :: 1 <= j < |s| ==> s[j] == s[1..][j - 1];
  }

  /** A first size that fits but is larger than the head of the rest leaves
      that head in place. */
  lemma HeadStays(s: seq<(int, int)>, w: int, h: int, k: nat)
    requires s != [] && Fits(s[0], w, h) && HeadAt(s[1..], w, h, k) && Area(s[0]) > Area(s[1..][k])
    ensures HeadAt(s, w, h, k + 1)
  {
    SortedWithFirst(s, w, h);
    BestAtShift(s, w, h, k);
  }

  /** A best index of the rest stays best, one place on, behind a first
      size that does not fit or fits with a larger area. */
  lemma BestAtShift(s: seq<(int, int)>, w: int, h: int, k: nat)
    requires s != [] && BestAt(s[1..], w, h, k)
    requires Fits(s[0], w, h) ==> Area(s[0]) > Area(s[1..][k])
    ensures BestAt(s, w, h, k + 1) && s[k + 1] == s[1..][k]
  {
    var rest := s[1..];
    forall j | 0 <= j < |s| && Fits(s[j], w, h) ensures Area(s[k + 1]) <= Area(s[j]) {
      if j > 0 {
        assert s[j] == rest[j - 1];
      }
    }
    forall j | 0 <= j < k + 1 && Fits(s[j], w, h) ensures Area(s[j]) > Area(s[k + 1]) {
      if j > 0 {
        assert s[j] == rest[j - 1];
      }
    }
  }

  /** The head of the sorted covering sizes is a covering size of least
      area, and no covering size before it in the list has the same area. */
  lemma {:induction false} SortedHead(s: seq<(int, int)>, w: int, h: int) returns (k: nat)
    requires exists i :: 0 <= i < |s| && Fits(s[i], w, h)
    ensures HeadAt(s, w, h, k)
  {
    var rest := s[1..];
    assert forall j :: 1 <= j < |s| ==> s[j] == rest[j - 1];
    if !Fits(s[0], w, h) {
      var k' := SortedHead(rest, w, h);
      HeadAfterSkip(s, w, h, k');
      k := k' + 1;
    } else if forall i :: 1 <= i < |s| ==> !Fits(s[i], w, h) {
      HeadOnlyFit(s, w, h);
      k := 0;
    } else {
      var k' := SortedHead(rest, w, h);
      if Area(s[0]) <= Area(rest[k']) {
        HeadIsFirst(s, w, h, k');
        k := 0;
      } else {
        HeadStays(s, w, h, k');
        k := k' + 1;
      }
    }
  }

  /** `pickSize`: the first of the covering sizes sorted by area, or the
      last size of the table when none covers. */
  function PickSize(w: int, h: int): (r: (int, int))
    ensures r in LoaderSizes
  {
    var sorted := SortByArea(Filter(LoaderSizes, Covers(w, h)));
    if |sorted| > 0 then
      assert sorted[0] in multiset(Filter(LoaderSizes, Covers(w, h)));
      sorted[0]
    else LoaderSizes[|LoaderSizes| - 1]
  }

  /** The choice is the best fit: when some size covers the screen, the
      result covers it with the least area, and an earlier size of the same
      area wins; when none covers, the result is the largest, 3840 by 2160. */
  lemma PickSizeBestFit(w: int, h: int)
    ensures (exists i :: 0 <= i < |LoaderSizes| && Fits(LoaderSizes[i], w, h)) ==>
              var r := PickSize(w, h);
              r.0 >= w && r.1 >= h
              && (forall j :: 0 <= j < |LoaderSizes| && Fits(LoaderSizes[j], w, h) ==> Area(r) <= Area(LoaderSizes[j]))
              && exists k :: 0 <= k < |LoaderSizes| && LoaderSizes[k] == r
                   && forall j :: 0 <= j < k && Fits(LoaderSizes[j], w, h) ==> Area(LoaderSizes[j]) > Area(r)
    ensures (forall i :: 0 <= i < |LoaderSizes| ==> !Fits(LoaderSizes[i], w, h)) ==>
              PickSize(w, h) == (3840, 2160)
  {
    if exists i :: 0 <= i < |LoaderSizes| && Fits(LoaderSizes[i], w, h) {
      var k := SortedHead(LoaderSizes, w, h);
    } else {
      FilterNoneSelected(LoaderSizes, Covers(w, h));
    }
  }

  /** `prefersDark ? 'dark' : 'light'`. */
  function Theme(prefersDark: bool): string
  {
    if prefersDark then "dark" else "light"
  }

  /** The url the loader sets for a theme and a size. */
  function BackgroundUrl(theme: string, s: (int, int)): string
  {
    "/static/images/backgrounds/" + theme + "/" + IntToString(s.0) + "/"
    + theme + "_back_" + IntToString(s.0) + "x" + IntToString(s.1) + ".png"
  }

  /** The file the generator writes for a theme and a size, relative to the
      application package whose `static` folder is served at `/static`. */
  function WrittenFile(theme: string, s: (int, int)): string
  {
    "static/images/backgrounds/" + theme + "/" + IntToString(s.0) + "/"
    + theme + "_back_" + IntToString(s.0) + "x" + IntToString(s.1) + ".png"
  }

  /** The images the generator writes, in the order it writes them: for
      each size, the light image and then the dark one. */
  function WrittenImages(sizes: seq<(int, int)>): (images: seq<(string, (int, int))>)
    ensures |images| == 2 * |sizes|
    ensures forall i :: 0 <= i < |images| ==>
              images[i] == (if i % 2 == 0 then "light" else "dark", sizes[i / 2])
  {
    if sizes == [] then []
    else
      var rest := WrittenImages(sizes[1..]);
      var images := [("light", sizes[0]), ("dark", sizes[0])] + rest;
      assert forall i :: 2 <= i < |images| ==>
               images[i] == rest[i - 2] && (i - 2) % 2 == i % 2 && sizes[i / 2] == sizes[1..][(i - 2) / 2];
      images
  }

  /** The url and the file name share everything after the leading slash. */
  lemma LeadingSlash(th: string, a: string, b: string)
    ensures "/static/images/backgrounds/" + th + "/" + a + "/" + th + "_back_" + a + "x" + b + ".png"
            == "/" + ("static/images/backgrounds/" + th + "/" + a + "/" + th + "_back_" + a + "x" + b + ".png")
  {
    var root := "static/images/backgrounds/";
    assert "/static/images/backgrounds/" == "/" + root;
    var tail := th + "/" + a + "/" + th + "_back_" + a + "x" + b + ".png";
    assert "/static/images/backgrounds/" + th + "/" + a + "/" + th + "_back_" + a + "x" + b + ".png"
           == "/static/images/backgrounds/" + tail;
    assert root + th + "/" + a + "/" + th + "_back_" + a + "x" + b + ".png" == root + tail;
    assert "/" + (root + tail) == ("/" + root) + tail;
  }

  /** The loader's url for a theme and a size is the generator's file for
      them, served under `/`. */
  lemma UrlOfWrittenSize(th: string, s: (int, int))
    ensures BackgroundUrl(th, s) == "/" + WrittenFile(th, s)
  {
    LeadingSlash(th, IntToString(s.0), IntToString(s.1));
  }

  /** Every size of the generator's list is written in both themes. */
  lemma WrittenInBothThemes(sizes: seq<(int, int)>, s: (int, int), prefersDark: bool)
    requires s in sizes
    ensures exists k :: 0 <= k < |WrittenImages(sizes)| && WrittenImages(sizes)[k] == (Theme(prefersDark), s)
  {
    var i :| 0 <= i < |sizes| && sizes[i] == s;
    var k := if prefersDark then 2 * i + 1 else 2 * i;
    assert k / 2 == i && (k % 2 == 0 <==> !prefersDark);
    assert WrittenImages(sizes)[k] == (Theme(prefersDark), s);
  }

  /** Whatever the screen and the colour scheme, the loader asks for an
      image the generator writes, at the url of its file. */
  lemma UrlNamesWrittenFile(w: int, h: int, prefersDark: bool)
    ensures exists k :: 0 <= k < |WrittenImages(WrittenSizes)|
                        && WrittenImages(WrittenSizes)[k] == (Theme(prefersDark), PickSize(w, h))
    ensures BackgroundUrl(Theme(prefersDark), PickSize(w, h)) == "/" + WrittenFile(Theme(prefersDark), PickSize(w, h))
  {
    LoaderMatchesWriter();
    WrittenInBothThemes(WrittenSizes, PickSize(w, h), prefersDark);
    UrlOfWrittenSize(Theme(prefersDark), PickSize(w, h));
  }
}
