/**
 * The sitemap and robots.txt generator: two text serialisers over the site address,
 * the page list and the current time. Writing the files is outside the model; the
 * clock reading is a parameter (`now`, an ISO-8601 timestamp).
 */
module SitemapScript {
  import opened Wrappers
  import opened Strings
  import opened Timestamps

  const SiteUrl: string := "https://vule.dev"

  datatype SitePage = SitePage(url: string, priority: string, changefreq: string, description: string)

  // Each description is the single literal of the page list, written as two halves around
  // " - " only so that the proofs that it contains no `>` stay cheap.
  const HomePage: SitePage := SitePage("/", "1.0", "weekly", "Homepage" + " - " + "Main portfolio landing page")
  const AboutPage: SitePage := SitePage("/#about", "0.9", "monthly", "About Section" + " - " + "Professional background and experience")
  const SkillsPage: SitePage := SitePage("/#skills", "0.8", "monthly", "Skills Section" + " - " + "Technical expertise and capabilities")
  const ProjectsPage: SitePage := SitePage("/#projects", "0.9", "weekly", "Projects Section" + " - " + "Portfolio of work and achievements")
  const ContactPage: SitePage := SitePage("/#contact", "0.7", "monthly", "Contact Section" + " - " + "Get in touch information")

  const SitePages: seq<SitePage> := [HomePage, AboutPage, SkillsPage, ProjectsPage, ContactPage]

  /** The XML declaration and the opening `urlset` element, followed by a blank line. */
  const Prologue: string :=
    "<?xml version=\"1.0\" encoding=\"UTF-8\"?>\n"
    + "<urlset xmlns=\"http://www.sitemaps.org/schemas/sitemap/0.9\"\n"
    + "        xmlns:xsi=\"http://www.w3.org/2001/XMLSchema-instance\"\n"
    + "        xsi:schemaLocation=\"http://www.sitemaps.org/schemas/sitemap/0.9\n"
    + "        http://www.sitemaps.org/schemas/sitemap/0.9/sitemap.xsd\">\n"
    + "\n"

  const Epilogue: string := "</urlset>"

  // ---------------------------------------------------------------------------
  // Writing

  /** One line `open value close` of a `url` block, such as `    <loc>…</loc>`. */
  function Line(open: string, value: string, close: string): string
  {
    open + value + close + "\n"
  }

  /** The comment and the `url` block written for one page. */
  function UrlEntry(site: string, page: SitePage, date: string): (r: string)
    ensures StartsWith(r, Line("  <!-- ", page.description, " -->"))
    ensures EndsWith(r, UrlFields(site, page, date))
  {
    Line("  <!-- ", page.description, " -->") + "  <url>\n" + UrlFields(site, page, date)
  }

  /** The lines inside a `url` block, and its closing tag. */
  function UrlFields(site: string, page: SitePage, date: string): (r: string)
    ensures StartsWith(r, Line("    <loc>", site + page.url, "</loc>"))
    ensures EndsWith(r, "  </url>\n\n")
  {
    Line("    <loc>", site + page.url, "</loc>")
    + (Line("    <lastmod>", date, "</lastmod>")
    + (Line("    <changefreq>", page.changefreq, "</changefreq>")
    + (Line("    <priority>", page.priority, "</priority>")
    + "  </url>\n\n")))
  }

  /** The texts of the pages, each rendered by `render`, in list order (built from the
      last page back, as the loop appends). */
  function Concat(render: SitePage -> string, pages: seq<SitePage>): string
  {
    if pages == [] then ""
    else Concat(render, pages[..|pages| - 1]) + render(pages[|pages| - 1])
  }

  /** The renderer of one page's block for a site and a date. */
  function EntryRenderer(site: string, date: string): SitePage -> string
  {
    page => UrlEntry(site, page, date)
  }

  /** The blocks of all pages. */
  function Entries(site: string, pages: seq<SitePage>, date: string): string
  {
    Concat(EntryRenderer(site, date), pages)
  }

  /** The whole sitemap for the pages, every entry stamped with `date`. */
  function SitemapXml(site: string, pages: seq<SitePage>, date: string): (xml: string)
    ensures StartsWith(xml, Prologue) && EndsWith(xml, Epilogue)
  {
    Prologue + Entries(site, pages, date) + Epilogue
  }

  /** `generateSitemap`: the date is taken once, then one block is appended per page. */
  method GenerateSitemap(site: string, pages: seq<SitePage>, now: string) returns (content: string)
    ensures content == SitemapXml(site, pages, DatePart(now))
  {
    var currentDate := DatePart(now);
    content := Prologue;
    content := AppendEach(content, EntryRenderer(site, currentDate), pages);
    content := content + Epilogue;
  }

  /** The `forEach` of `generateSitemap`: appends the text of each page in turn. */
  method AppendEach(start: string, render: SitePage -> string, pages: seq<SitePage>) returns (content: string)
    ensures content == start + Concat(render, pages)
  {
    content := start;
    for k := 0 to |pages|
      invariant content == start + Concat(render, pages[..k])
    {
      ConcatSnoc(render, pages, k);
      content := content + render(pages[k]);
    }
    assert pages[..|pages|] == pages;
  }

  /** Rendering one page more appends its text. */
  lemma ConcatSnoc(render: SitePage -> string, pages: seq<SitePage>, k: nat)
    requires k < |pages|
    ensures Concat(render, pages[..k + 1]) == Concat(render, pages[..k]) + render(pages[k])
  {
    assert pages[..k + 1][..k] == pages[..k];
  }

  /** The concatenation can also be read off from the first page on. */
  lemma {:induction false} ConcatFirst(render: SitePage -> string, pages: seq<SitePage>)
    requires pages != []
    ensures Concat(render, pages) == render(pages[0]) + Concat(render, pages[1..])
  {
    if |pages| > 1 {
      var init := pages[..|pages| - 1];
      ConcatFirst(render, init);
      assert init[0] == pages[0];
      assert init[1..] == pages[1..][..|pages[1..]| - 1];
    } else {
      assert pages[..0] == [] && pages[1..] == [];
    }
  }

  // ---------------------------------------------------------------------------
  // Reading back

  /** Text that can stand inside an element or comment: it has no `>`. */
  predicate PlainText(s: string)
  {
    '>' !in s
  }

  /** What a page needs so that its block reads back unambiguously. */
  predicate Readable(site: string, page: SitePage)
  {
    PlainText(page.description) && PlainText(site + page.url)
    && PlainText(page.changefreq) && PlainText(page.priority)
  }

  /** The rest of `s` after the literal `lit`, if `s` starts with it. */
  function Expect(lit: string, s: string): (r: Option<string>)
    ensures r.Some? ==> |r.value| == |s| - |lit|
  {
    if StartsWith(s, lit) then Some(s[|lit|..]) else None
  }

  lemma ExpectOf(lit: string, t: string)
    ensures Expect(lit, lit + t) == Some(t)
  {
    assert (lit + t)[..|lit|] == lit;
    assert (lit + t)[|lit|..] == t;
  }

  /** Splits `s` at its first `>`: the text before it and the text after it. */
  function SplitAtGt(s: string): (r: Option<(string, string)>)
    ensures r.Some? ==> |r.value.1| < |s|
  {
    if s == [] then None
    else if s[0] == '>' then Some(([], s[1..]))
    else match SplitAtGt(s[1..])
      case None => None
      case Some((a, b)) => Some(([s[0]] + a, b))
  }

  lemma {:induction false} SplitAtGtOf(a: string, b: string)
    requires PlainText(a)
    ensures SplitAtGt(a + ">" + b) == Some((a, b))
  {
    var s := a + ">" + b;
    if a == [] {
      assert s[0] == '>' && s[1..] == b;
    } else {
      assert s[0] == a[0] && s[1..] == a[1..] + ">" + b;
      SplitAtGtOf(a[1..], b);
      assert [a[0]] + a[1..] == a;
    }
  }

  /** Reads one line `open value close`, where `close` ends in `>`; yields the value and the rest. */
  function ReadLine(open: string, close: string, s: string): (r: Option<(string, string)>)
    requires close != [] && close[|close| - 1] == '>'
    ensures r.Some? ==> |r.value.1| < |s|
  {
    match Expect(open, s)
    case None => None
    case Some(afterOpen) =>
      match SplitAtGt(afterOpen)
      case None => None
      case Some((text, afterGt)) =>
        var stem := close[..|close| - 1];
        if EndsWith(text, stem) && StartsWith(afterGt, "\n")
        then Some((text[..|text| - |stem|], afterGt[1..]))
        else None
  }

  lemma ReadLineOf(open: string, value: string, close: string, rest: string)
    requires close != [] && close[|close| - 1] == '>' && PlainText(close[..|close| - 1])
    requires PlainText(value)
    ensures ReadLine(open, close, Line(open, value, close) + rest) == Some((value, rest))
  {
    var stem := close[..|close| - 1];
    assert close == stem + ">";
    var afterOpen := value + stem + ">" + ("\n" + rest);
    assert Line(open, value, close) + rest == open + afterOpen;
    ExpectOf(open, afterOpen);
    assert PlainText(value + stem);
    SplitAtGtOf(value + stem, "\n" + rest);
    var text := value + stem;
    assert text[|text| - |stem|..] == stem;
    assert text[..|text| - |stem|] == value;
    assert ("\n" + rest)[..1] == "\n" && ("\n" + rest)[1..] == rest;
  }

  /** Reads the lines inside a `url` block and its closing tag; yields the `loc`, the
      `lastmod`, the `changefreq`, the `priority` and the rest. */
  function ReadFields(s: string): (r: Option<(string, string, string, string, string)>)
    ensures r.Some? ==> |r.value.4| < |s|
  {
    match ReadLine("    <loc>", "</loc>", s)
    case None => None
    case Some((loc, s1)) =>
      match ReadLine("    <lastmod>", "</lastmod>", s1)
      case None => None
      case Some((date, s2)) =>
        match ReadLine("    <changefreq>", "</changefreq>", s2)
        case None => None
        case Some((changefreq, s3)) =>
          match ReadLine("    <priority>", "</priority>", s3)
          case None => None
          case Some((priority, s4)) =>
            match Expect("  </url>\n\n", s4)
            case None => None
            case Some(rest) => Some((loc, date, changefreq, priority, rest))
  }

  lemma ReadFieldsOf(site: string, page: SitePage, date: string, rest: string)
    requires Readable(site, page) && PlainText(date)
    ensures ReadFields(UrlFields(site, page, date) + rest)
      == Some((site + page.url, date, page.changefreq, page.priority, rest))
  {
    var r4 := "  </url>\n\n" + rest;
    var r3 := Line("    <priority>", page.priority, "</priority>") + r4;
    var r2 := Line("    <changefreq>", page.changefreq, "</changefreq>") + r3;
    var r1 := Line("    <lastmod>", date, "</lastmod>") + r2;
    assert UrlFields(site, page, date) + rest == Line("    <loc>", site + page.url, "</loc>") + r1;
    ReadLineOf("    <loc>", site + page.url, "</loc>", r1);
    ReadLineOf("    <lastmod>", date, "</lastmod>", r2);
    ReadLineOf("    <changefreq>", page.changefreq, "</changefreq>", r3);
    ReadLineOf("    <priority>", page.priority, "</priority>", r4);
    ExpectOf("  </url>\n\n", rest);
  }

  /** Reads one page block; the `loc` must begin with the site address. Yields the page,
      its `lastmod` date and the rest. */
  function ReadEntry(site: string, s: string): (r: Option<(SitePage, string, string)>)
    ensures r.Some? ==> |r.value.2| < |s|
  {
    match ReadLine("  <!-- ", " -->", s)
    case None => None
    case Some((description, s1)) =>
      match Expect("  <url>\n", s1)
      case None => None
      case Some(s2) =>
        match ReadFields(s2)
        case None => None
        case Some((loc, date, changefreq, priority, rest)) =>
          if StartsWith(loc, site)
          then Some((SitePage(loc[|site|..], priority, changefreq, description), date, rest))
          else None
  }

  lemma ReadEntryOf(site: string, page: SitePage, date: string, rest: string)
    requires Readable(site, page) && PlainText(date)
    ensures ReadEntry(site, UrlEntry(site, page, date) + rest) == Some((page, date, rest))
  {
    var r2 := UrlFields(site, page, date) + rest;
    var r1 := "  <url>\n" + r2;
    assert UrlEntry(site, page, date) + rest == Line("  <!-- ", page.description, " -->") + r1;
    ReadLineOf("  <!-- ", page.description, " -->", r1);
    ExpectOf("  <url>\n", r2);
    ReadFieldsOf(site, page, date, rest);
    assert (site + page.url)[..|site|] == site;
    assert (site + page.url)[|site|..] == page.url;
  }

  /** Reads page blocks up to the closing `</urlset>`, which must end the text. */
  function ReadEntries(site: string, s: string): Option<seq<(SitePage, string)>>
    decreases |s|
  {
    if s == Epilogue then Some([])
    else match ReadEntry(site, s)
      case None => None
      case Some((page, date, rest)) =>
        match ReadEntries(site, rest)
        case None => None
        case Some(more) => Some([(page, date)] + more)
  }

  /** A sitemap reader: the pages it lists and the `lastmod` of each. */
  function ReadSitemap(site: string, xml: string): Option<seq<(SitePage, string)>>
  {
    match Expect(Prologue, xml)
    case None => None
    case Some(body) => ReadEntries(site, body)
  }

  /** Each page paired with the one date. */
  function Stamped(pages: seq<SitePage>, date: string): (r: seq<(SitePage, string)>)
    ensures |r| == |pages|
    ensures forall i | 0 <= i < |pages| :: r[i] == (pages[i], date)
  {
    if pages == [] then [] else [(pages[0], date)] + Stamped(pages[1..], date)
  }

  /** The blocks of a non-empty page list, with text after them, are the first page's
      block followed by the others'. */
  lemma EntriesFirst(site: string, pages: seq<SitePage>, date: string, after: string)
    requires pages != []
    ensures Entries(site, pages, date) + after == UrlEntry(site, pages[0], date) + (Entries(site, pages[1..], date) + after)
  {
    ConcatFirst(EntryRenderer(site, date), pages);
  }

  /** A written block in front of more text reads back to its page, then the reader
      goes on with the text after it. */
  lemma ReadEntriesCons(site: string, page: SitePage, date: string, tail: string)
    requires Readable(site, page) && PlainText(date)
    ensures ReadEntries(site, UrlEntry(site, page, date) + tail) ==
      match ReadEntries(site, tail)
      case None => None
      case Some(more) => Some([(page, date)] + more)
  {
    var s := UrlEntry(site, page, date) + tail;
    assert s[0] == ' ' && Epilogue[0] == '<';
    ReadEntryOf(site, page, date, tail);
  }

  lemma {:induction false} ReadEntriesOf(site: string, pages: seq<SitePage>, date: string)
    requires forall p | p in pages :: Readable(site, p)
    requires PlainText(date)
    ensures ReadEntries(site, Entries(site, pages, date) + Epilogue) == Some(Stamped(pages, date))
  {
    if pages == [] {
      assert Entries(site, pages, date) + Epilogue == Epilogue;
    } else {
      var tail := Entries(site, pages[1..], date) + Epilogue;
      EntriesFirst(site, pages, date, Epilogue);
      ReadEntriesCons(site, pages[0], date, tail);
      ReadEntriesOf(site, pages[1..], date);
    }
  }

  /**
   * Reading the generated sitemap back gives exactly one block per page, in list order,
   * each with `loc` = site + page url, `changefreq` and `priority` as listed, and the one
   * date as `lastmod`.
   */
  lemma SitemapRoundTrip(site: string, pages: seq<SitePage>, date: string)
    requires forall p | p in pages :: Readable(site, p)
    requires PlainText(date)
    ensures ReadSitemap(site, SitemapXml(site, pages, date)) == Some(Stamped(pages, date))
  {
    var body := Entries(site, pages, date) + Epilogue;
    assert SitemapXml(site, pages, date) == Prologue + body;
    ExpectOf(Prologue, body);
    ReadEntriesOf(site, pages, date);
  }

  /** None of the site's page fields contains a `>`. */
  lemma SitePagesReadable()
    ensures forall p | p in SitePages :: Readable(SiteUrl, p)
  {
    HomePageReadable();
    AboutPageReadable();
    SkillsPageReadable();
    ProjectsPageReadable();
    ContactPageReadable();
  }

  lemma HomePageReadable()
    ensures Readable(SiteUrl, HomePage)
  {
    assert PlainText("Homepage") && PlainText(" - ") && PlainText("Main portfolio landing page");
    assert PlainText(SiteUrl + "/") && PlainText("weekly") && PlainText("1.0");
  }

  lemma AboutPageReadable()
    ensures Readable(SiteUrl, AboutPage)
  {
    assert PlainText("About Section") && PlainText(" - ") && PlainText("Professional background and experience");
    assert PlainText(SiteUrl + "/#about") && PlainText("monthly") && PlainText("0.9");
  }

  lemma SkillsPageReadable()
    ensures Readable(SiteUrl, SkillsPage)
  {
    assert PlainText("Skills Section") && PlainText(" - ") && PlainText("Technical expertise and capabilities");
    assert PlainText(SiteUrl + "/#skills") && PlainText("monthly") && PlainText("0.8");
  }

  lemma ProjectsPageReadable()
    ensures Readable(SiteUrl, ProjectsPage)
  {
    assert PlainText("Projects Section") && PlainText(" - ") && PlainText("Portfolio of work and achievements");
    assert PlainText(SiteUrl + "/#projects") && PlainText("weekly") && PlainText("0.9");
  }

  lemma ContactPageReadable()
    ensures Readable(SiteUrl, ContactPage)
  {
    assert PlainText("Contact Section") && PlainText(" - ") && PlainText("Get in touch information");
    assert PlainText(SiteUrl + "/#contact") && PlainText("monthly") && PlainText("0.7");
  }

  /** The site's own page list reads back from its sitemap, on any ISO timestamp. */
  lemma SiteSitemapRoundTrip(now: string)
    requires IsIsoTimestamp(now)
    ensures ReadSitemap(SiteUrl, SitemapXml(SiteUrl, SitePages, DatePart(now))) == Some(Stamped(SitePages, now[..10]))
  {
    IsoDatePart(now);
    assert PlainText(now[..10]) by {
      forall i | 0 <= i < 10 ensures now[i] != '>' {
        if i !in {4, 7} {
          assert IsDigit(now[i]);
        }
      }
    }
    SitePagesReadable();
    SitemapRoundTrip(SiteUrl, SitePages, now[..10]);
  }

  // ---------------------------------------------------------------------------
  // robots.txt

  /** The opening of robots.txt: every agent may crawl everything. */
  const RobotsHead: string := "User-agent: *\nAllow: /\n\n# Sitemap location"

  /** The crawl delay and the per-crawler rules that follow the sitemap line. */
  const CrawlPolicy: string :=
    "\n# Allow all search engines to crawl the site\n"
    + "# Disallow crawling of any admin or private areas (none in this case)\n"
    + "\n"
    + "# Crawl-delay for polite crawling (optional)\n"
    + "Crawl-delay: 1\n"
    + "\n"
    + "# Allow crawling of CSS and JS files for better rendering\n"
    + "User-agent: Googlebot\n"
    + "Allow: /assets/\n"
    + "\n"
    + "User-agent: Bingbot\n"
    + "Allow: /assets/\n"
    + "\n"
    + "# Social media crawlers\n"
    + "User-agent: facebookexternalhit\n"
    + "Allow: /\n"
    + "\n"
    + "User-agent: Twitterbot\n"
    + "Allow: /\n"

  /** Where the parts of a four-part text sit. */
  lemma FourParts(a: string, b: string, c: string, d: string)
    ensures var t := a + b + c + d;
      && t[..|a|] == a
      && t[|a|..|a| + |b|] == b
      && t[|t| - |d|..] == d
  {
  }

  /** `generateRobotsTxt`: allows everything, names the sitemap, asks for a one-second
      crawl delay, and ends with the generation time. */
  function RobotsTxt(site: string, now: string): (txt: string)
    ensures StartsWith(txt, RobotsHead)
    ensures OccursAt("\nSitemap: " + site + "/sitemap.xml\n", txt, |RobotsHead|)
    ensures EndsWith(txt, "\n# Generated on: " + now)
  {
    var sitemapLine := "\nSitemap: " + site + "/sitemap.xml\n";
    var stamp := "\n# Generated on: " + now;
    FourParts(RobotsHead, sitemapLine, CrawlPolicy, stamp);
    RobotsHead + sitemapLine + CrawlPolicy + stamp
  }
}
