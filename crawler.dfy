/** `get_image_links` (src/utils/parser.py:45-98): every archive page from 1 to
    12609 is loaded once, and what the load gave is written as text lines
    `page,code,url,src` and tallied. The browser is not modelled: what each
    page load gave is an input. */
module Crawler {
  import opened Text

  /** The last page of the archive (`range(1, 12610)`). */
  const LastPage: nat := 12609

  /** `https://kaliningradka.kantiana.ru/archive/newspapers/`, in three pieces. */
  const ArchiveUrl: string := "https://kaliningradka" + ".kantiana.ru" + "/archive/newspapers/"

  function PageUrl(page: nat): string {
    ArchiveUrl + NatToString(page) + "/"
  }

  /** What loading one page gave: the wait for an `img` timed out, or the
      page loaded and these are the `src` attributes of its `img` elements
      in document order (`None` where an element has none). */
  datatype PageOutcome = TimedOut | Loaded(srcs: seq<Option<string>>)

  /** A page that loaded without any `img` element. */
  predicate Imageless(o: PageOutcome) {
    o.Loaded? && |o.srcs| == 0
  }

  /** The code written for a page whose images were found, for one whose
      first image has no `src`, and for a timeout. */
  const Found: nat := 1
  const NoImages: nat := 2
  const Timeout: nat := 3

  /** A `src` as an f-string shows it; a missing one reads `None`. */
  function SrcText(src: Option<string>): string {
    match src
    case None => "None"
    case Some(t) => t
  }

  /** `f"{page_number},{code},{url},{src}\n"` */
  function Line(page: nat, code: nat, src: string): string {
    NatToString(page) + "," + NatToString(code) + "," + PageUrl(page) + "," + src + "\n"
  }

  /** The counters `success_pages`, `no_images_failed_pages` and
      `timeout_failed_pages`. */
  datatype Tally = Tally(success: nat, noImages: nat, timeouts: nat)

  function Total(t: Tally): nat { t.success + t.noImages + t.timeouts }

  /** What a run leaves behind: the lines in the file, the counters, and
      whether it stopped on an exception. A page whose load found no `img`
      at all makes `images[0]` raise `IndexError`, which nothing catches. */
  datatype Run = Run(lines: seq<string>, tally: Tally, crashed: bool)

  /** The lines written for one page, or `None` when handling it raises. */
  function PageLines(page: nat, o: PageOutcome): Option<seq<string>> {
    match o
    case TimedOut => Some([Line(page, Timeout, "failed")])
    case Loaded(srcs) =>
      if srcs == [] then None
      else if srcs[0].Some? then Some(seq(|srcs|, i requires 0 <= i < |srcs| => Line(page, Found, SrcText(srcs[i]))))
      else Some([Line(page, NoImages, "failed")])
  }

  /** The counter one handled page increments. */
  function Bump(t: Tally, o: PageOutcome): Tally {
    match o
    case TimedOut => t.(timeouts := t.timeouts + 1)
    case Loaded(srcs) =>
      if srcs != [] && srcs[0].Some? then t.(success := t.success + 1) else t.(noImages := t.noImages + 1)
  }

  /** The run after handling page `page`, with outcome `o`, following run `r`. */
  function Step(r: Run, page: nat, o: PageOutcome): Run {
    if r.crashed then r
    else match PageLines(page, o)
      case None => Run(r.lines, r.tally, true)
      case Some(ls) => Run(r.lines + ls, Bump(r.tally, o), false)
  }

  /** The run over pages 1 to `|os|`, page `i + 1` having outcome `os[i]`. */
  function Crawl(os: seq<PageOutcome>): Run {
    if os == [] then Run([], Tally(0, 0, 0), false)
    else Step(Crawl(os[..|os| - 1]), |os|, os[|os| - 1])
  }

  /** The crawl with its loops: one pass over the pages and, for a page
      whose images were found, one pass over its images. */
  method GetImageLinks(os: seq<PageOutcome>) returns (lines: seq<string>, success: nat, noImages: nat, timeouts: nat, crashed: bool)
    requires |os| == LastPage
    ensures Run(lines, Tally(success, noImages, timeouts), crashed) == Crawl(os)
  {
    lines, success, noImages, timeouts, crashed := [], 0, 0, 0, false;
    var page := 1;
    while page <= LastPage
      invariant 1 <= page <= LastPage + 1
      invariant Run(lines, Tally(success, noImages, timeouts), crashed) == Crawl(os[..page - 1])
      invariant !crashed
    {
      assert os[..page][..page - 1] == os[..page - 1];
      var o := os[page - 1];
      if o.TimedOut? {
        lines := lines + [Line(page, Timeout, "failed")];
        timeouts := timeouts + 1;
      } else if o.srcs == [] {
        crashed := true;
        CrashSticks(os, page);
        return;
      } else if o.srcs[0].Some? {
        ghost var before := lines;
        var k := 0;
        while k < |o.srcs|
          invariant 0 <= k <= |o.srcs|
          invariant lines == before + seq(k, i requires 0 <= i < k => Line(page, Found, SrcText(o.srcs[i])))
        {
          lines := lines + [Line(page, Found, SrcText(o.srcs[k]))];
          k := k + 1;
        }
        success := success + 1;
      } else {
        lines := lines + [Line(page, NoImages, "failed")];
        noImages := noImages + 1;
      }
      page := page + 1;
    }
    assert os[..LastPage] == os;
  }

  /** After an exception nothing more is written or counted. */
  lemma {:induction false} CrashSticks(os: seq<PageOutcome>, k: nat)
    requires k <= |os| && Crawl(os[..k]).crashed
    ensures Crawl(os) == Crawl(os[..k])
    decreases |os| - k
  {
    if k < |os| {
      assert os[..k + 1][..k] == os[..k];
      CrashSticks(os, k + 1);
    } else {
      assert os[..k] == os;
    }
  }

  /** The file only grows: what the first `k` pages wrote stays at its
      front, so lines appear in page order. */
  lemma {:induction false} CrawlAppends(os: seq<PageOutcome>, k: nat)
    requires k <= |os|
    ensures Crawl(os[..k]).lines <= Crawl(os).lines
    decreases |os| - k
  {
    if k < |os| {
      assert os[..k + 1][..k] == os[..k];
      CrawlAppends(os, k + 1);
    } else {
      assert os[..k] == os;
    }
  }

  /** Every page handled bumps exactly one counter, so the counters add up
      to the number of pages; the run stops exactly when some page loaded
      without any image. */
  lemma {:induction false} CrawlTally(os: seq<PageOutcome>)
    ensures !Crawl(os).crashed ==> Total(Crawl(os).tally) == |os|
    ensures Crawl(os).crashed <==> exists i :: 0 <= i < |os| && Imageless(os[i])
  {
    if os != [] {
      var init := os[..|os| - 1];
      CrawlTally(init);
      assert Crawl(os) == Step(Crawl(init), |os|, os[|os| - 1]);
      StepTally(Crawl(init), |os|, os[|os| - 1]);
      SomeImageless(os, init);
    }
  }

  /** Some page of `os` has no image exactly when one before the last has
      none or the last has none. */
  lemma SomeImageless(os: seq<PageOutcome>, init: seq<PageOutcome>)
    requires os != [] && init == os[..|os| - 1]
    ensures (exists i :: 0 <= i < |os| && Imageless(os[i]))
      <==> (exists i :: 0 <= i < |init| && Imageless(init[i])) || Imageless(os[|os| - 1])
  {
    if i :| 0 <= i < |os| && Imageless(os[i]) {
      if i < |os| - 1 {
        assert init[i] == os[i];
      }
    }
    if i :| 0 <= i < |init| && Imageless(init[i]) {
      assert os[i] == init[i];
    }
  }

  /** One more page: the run stops there exactly when it had stopped before
      or the page has no image, and otherwise that page bumps one counter:
      `timeout_failed_pages` for a timeout, `success_pages` when the first
      image has a `src`, and `no_images_failed_pages` when it has none. */
  lemma StepTally(r: Run, page: nat, o: PageOutcome)
    ensures Step(r, page, o).crashed <==> r.crashed || Imageless(o)
    ensures !Step(r, page, o).crashed ==> Total(Step(r, page, o).tally) == Total(r.tally) + 1
    ensures var t, t' := r.tally, Step(r, page, o).tally;
      !Step(r, page, o).crashed ==>
        && (o.TimedOut? ==> t' == Tally(t.success, t.noImages, t.timeouts + 1))
        && (o.Loaded? && o.srcs[0].Some? ==> t' == Tally(t.success + 1, t.noImages, t.timeouts))
        && (o.Loaded? && o.srcs[0].None? ==> t' == Tally(t.success, t.noImages + 1, t.timeouts))
  {
  }

  /** The archive address holds no comma. */
  lemma PageUrlClean(page: nat)
    ensures ',' !in PageUrl(page)
  {
    var d := NatToString(page);
    assert forall i :: 0 <= i < |d| ==> IsDigit(d[i]);
    assert ',' !in "https://kaliningradka";
    assert ',' !in ".kantiana.ru";
    assert ',' !in "/archive/newspapers/";
  }

  lemma DigitsClean(d: string)
    requires AllIn(d, Digit)
    ensures ',' !in d
  {
  }

  /** Reading a line back the way the downloader does (strip, then split at
      commas) gives the page, the code, the address and the `src`, as long as
      the `src` holds no comma and does not end in whitespace. */
  lemma LineReadBack(page: nat, code: nat, src: string)
    requires ',' !in src && (src == [] || !InClass(src[|src| - 1], Space))
    ensures var parts := Split(Strip(Line(page, code, src)), ',');
      && parts == [NatToString(page), NatToString(code), PageUrl(page), src]
      && Value(parts[0]) == page && Value(parts[1]) == code
  {
    var p, c, u := NatToString(page), NatToString(code), PageUrl(page);
    var ps := [p, c, u, src];
    var core := Join(ps, ',');
    JoinFour(p, c, u, src);
    assert Line(page, code, src) == core + "\n";
    assert core[0] == p[0];
    assert !InClass(core[|core| - 1], Space) by {
      if src == [] { assert core[|core| - 1] == ','; }
      else { assert core[|core| - 1] == src[|src| - 1]; }
    }
    StripLine(core);
    PageUrlClean(page);
    DigitsClean(p);
    DigitsClean(c);
    SplitJoin(ps, ',');
  }

  /** Four pieces joined with commas. */
  lemma JoinFour(a: string, b: string, c: string, d: string)
    ensures Join([a, b, c, d], ',') == a + "," + b + "," + c + "," + d
  {
    var ps := [a, b, c, d];
    assert ps[1..][1..][1..] == [d];
    assert Join(ps[1..][1..], ',') == c + "," + d;
    assert Join(ps[1..], ',') == b + "," + (c + "," + d);
  }

  /** A `src` the downloader reads back intact: no comma to split it, no
      trailing whitespace for `strip` to drop, and no line break for
      `readlines` to split the line at. */
  predicate CleanSrc(t: string) {
    ',' !in t && '\n' !in t && '\r' !in t && (t == [] || !InClass(t[|t| - 1], Space))
  }

  /** What each line written for a page reads back as: a timeout gives one
      line with code 3 and `failed`; a first image without `src` gives one
      line with code 2 and `failed`; otherwise there is one line with code 1
      per image, in image order, holding that image's `src`. */
  lemma PageLinesReadBack(page: nat, o: PageOutcome, i: nat)
    requires PageLines(page, o).Some? && i < |PageLines(page, o).value|
    requires o.Loaded? && o.srcs[0].Some? ==> forall j :: 0 <= j < |o.srcs| ==> CleanSrc(SrcText(o.srcs[j]))
    ensures var ls := PageLines(page, o).value; var parts := Split(Strip(ls[i]), ',');
      && (o.TimedOut? ==>
            |ls| == 1 && parts == [NatToString(page), NatToString(Timeout), PageUrl(page), "failed"])
      && (o.Loaded? && o.srcs[0].None? ==>
            |ls| == 1 && parts == [NatToString(page), NatToString(NoImages), PageUrl(page), "failed"])
      && (o.Loaded? && o.srcs[0].Some? ==>
            |ls| == |o.srcs| && parts == [NatToString(page), NatToString(Found), PageUrl(page), SrcText(o.srcs[i])])
  {
    if o.TimedOut? || o.srcs[0].None? {
      LineReadBack(page, if o.TimedOut? then Timeout else NoImages, "failed");
    } else {
      LineReadBack(page, Found, SrcText(o.srcs[i]));
    }
  }
}
