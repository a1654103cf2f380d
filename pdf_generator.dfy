/**
 * The browser-side resume export: hide what must not be printed, inject the print
 * stylesheet, rasterise the page, put everything back, and lay the single tall image
 * out over A4 pages.
 *
 * The page is a `Document`: its elements in document order (what selectors see of
 * them does not change during an export) and, per element, the inline `style.display`
 * string, which the export changes in place. The rasteriser and the PDF library are
 * outside the model: the rasteriser is a parameter, the PDF is its list of image
 * placements and its properties.
 */
module PdfGenerator {
  import opened Wrappers
  import opened Strings
  import opened Timestamps

  // ---------------------------------------------------------------------------
  // Elements and selectors

  /** What a selector can see of an element: its upper-case tag name (as `tagName`
      reports it for HTML elements), its classes and the names of its attributes. */
  datatype Element = Element(tagName: string, classList: set<string>, attributes: set<string>)

  /** The four selector forms the sanitiser uses. A type selector holds the tag
      name in the upper case `tagName` uses, since HTML type selectors ignore case. */
  datatype Selector =
    | Type(tag: string)                        // nav
    | Class(name: string)                      // .no-print
    | Attribute(attr: string)                  // [data-no-print]
    | TypeNotClass(tag: string, except: string) // button:not(.print-keep)

  /** Whether `sel` selects `e`. `button:not(.print-keep)` selects exactly the buttons the
      class selector `.print-keep` does not select. */
  predicate Matches(sel: Selector, e: Element): (b: bool)
    ensures sel.TypeNotClass? ==>
      (b <==> e.tagName == sel.tag && !(sel.except in e.classList))
    ensures sel.Type? || sel.TypeNotClass? ==> b ==> e.tagName == sel.tag
  {
    match sel
    case Type(t) => e.tagName == t
    case Class(c) => c in e.classList
    case Attribute(a) => a in e.attributes
    case TypeNotClass(t, c) => e.tagName == t && c !in e.classList
  }

  /** The selectors whose matches are hidden for the export, in the order they are applied. */
  const NonPrintableSelectors: seq<Selector> := [
    Type("NAV"),
    Class("no-print"),
    Attribute("data-no-print"),
    TypeNotClass("BUTTON", "print-keep"),
    Class("scroll-indicator"),
    Class("loading-spinner")
  ]

  /** An element is hidden for the export exactly when it is a `nav`, carries the class
      `no-print`, `scroll-indicator` or `loading-spinner`, has the attribute
      `data-no-print`, or is a button without the class `print-keep`. */
  lemma NonPrintableHits(e: Element)
    ensures (exists s | s in NonPrintableSelectors :: Matches(s, e)) <==>
      || e.tagName == "NAV"
      || "no-print" in e.classList
      || "data-no-print" in e.attributes
      || (e.tagName == "BUTTON" && "print-keep" !in e.classList)
      || "scroll-indicator" in e.classList
      || "loading-spinner" in e.classList
  {
    if e.tagName == "NAV" {
      assert Matches(NonPrintableSelectors[0], e);
    } else if "no-print" in e.classList {
      assert Matches(NonPrintableSelectors[1], e);
    } else if "data-no-print" in e.attributes {
      assert Matches(NonPrintableSelectors[2], e);
    } else if e.tagName == "BUTTON" && "print-keep" !in e.classList {
      assert Matches(NonPrintableSelectors[3], e);
    } else if "scroll-indicator" in e.classList {
      assert Matches(NonPrintableSelectors[4], e);
    } else if "loading-spinner" in e.classList {
      assert Matches(NonPrintableSelectors[5], e);
    }
  }

  /** `querySelectorAll`: the indices of the elements matching `sel`, in document order. */
  function QueryAll(tree: seq<Element>, sel: Selector): (r: seq<nat>)
    ensures InRange(r, |tree|)
  {
    if tree == [] then []
    else
      var n := |tree| - 1;
      QueryAll(tree[..n], sel) + (if Matches(sel, tree[n]) then [n] else [])
  }

  /** The query returns every matching element, only matching ones, each once and in document order. */
  lemma {:induction false} QueryAllFacts(tree: seq<Element>, sel: Selector)
    ensures var r := QueryAll(tree, sel);
      && (forall k | 0 <= k < |r| :: Matches(sel, tree[r[k]]))
      && (forall i | 0 <= i < |tree| && Matches(sel, tree[i]) :: i in r)
      && (forall k, l | 0 <= k < l < |r| :: r[k] < r[l])
  {
    QueryAllMatching(tree, sel);
    QueryAllComplete(tree, sel);
    QueryAllIncreasing(tree, sel);
  }

  /** Every element the query returns matches the selector. */
  lemma {:induction false} QueryAllMatching(tree: seq<Element>, sel: Selector)
    ensures forall k | 0 <= k < |QueryAll(tree, sel)| :: Matches(sel, tree[QueryAll(tree, sel)[k]])
  {
    if tree != [] {
      var n := |tree| - 1;
      QueryAllMatching(tree[..n], sel);
      var prev := QueryAll(tree[..n], sel);
      var r := QueryAll(tree, sel);
      assert r == prev + (if Matches(sel, tree[n]) then [n] else []);
      forall k | 0 <= k < |r| ensures Matches(sel, tree[r[k]]) {
        if k < |prev| {
          assert r[k] == prev[k] && tree[..n][prev[k]] == tree[prev[k]];
        } else {
          assert r[k] == n && Matches(sel, tree[n]);
        }
      }
    }
  }

  /** Every element that matches the selector is returned. */
  lemma {:induction false} QueryAllComplete(tree: seq<Element>, sel: Selector)
    ensures forall i | 0 <= i < |tree| && Matches(sel, tree[i]) :: i in QueryAll(tree, sel)
  {
    if tree != [] {
      var n := |tree| - 1;
      QueryAllComplete(tree[..n], sel);
      assert forall i | 0 <= i < n :: tree[..n][i] == tree[i];
    }
  }

  /** The query returns its elements in strictly increasing document order. */
  lemma {:induction false} QueryAllIncreasing(tree: seq<Element>, sel: Selector)
    ensures forall k, l | 0 <= k < l < |QueryAll(tree, sel)| :: QueryAll(tree, sel)[k] < QueryAll(tree, sel)[l]
  {
    if tree != [] {
      var n := |tree| - 1;
      QueryAllIncreasing(tree[..n], sel);
      var prev := QueryAll(tree[..n], sel);
      var r := QueryAll(tree, sel);
      assert r == prev + (if Matches(sel, tree[n]) then [n] else []);
      forall k, l | 0 <= k < l < |r| ensures r[k] < r[l] {
        if l < |prev| {
          assert r[k] == prev[k] && r[l] == prev[l];
        } else {
          assert r[k] == prev[k] < n == r[l];
        }
      }
    }
  }

  lemma QueryAllSound(tree: seq<Element>, sel: Selector, i: nat)
    requires i in QueryAll(tree, sel)
    ensures i < |tree| && Matches(sel, tree[i])
  {
    QueryAllFacts(tree, sel);
    var r := QueryAll(tree, sel);
    var k :| 0 <= k < |r| && r[k] == i;
  }

  /** The matches of every selector of `sels`, selector by selector: the order in which
      the sanitiser visits elements. An element matched by several selectors occurs
      several times. */
  function MatchedBy(tree: seq<Element>, sels: seq<Selector>): (r: seq<nat>)
    ensures InRange(r, |tree|)
  {
    if sels == [] then []
    else
      var n := |sels| - 1;
      MatchedBy(tree, sels[..n]) + QueryAll(tree, sels[n])
  }

  /** The sanitiser visits exactly the elements some selector matches. */
  lemma {:induction false} MatchedByCovers(tree: seq<Element>, sels: seq<Selector>)
    ensures forall i | 0 <= i < |tree| :: i in MatchedBy(tree, sels) <==> exists s | s in sels :: Matches(s, tree[i])
  {
    if sels != [] {
      var n := |sels| - 1;
      MatchedByCovers(tree, sels[..n]);
      QueryAllFacts(tree, sels[n]);
      var r := MatchedBy(tree, sels);
      assert sels == sels[..n] + [sels[n]];
      forall i | 0 <= i < |tree|
        ensures i in r <==> exists s | s in sels :: Matches(s, tree[i])
      {
        var q := QueryAll(tree, sels[n]);
        if i in MatchedBy(tree, sels[..n]) {
          var s :| s in sels[..n] && Matches(s, tree[i]);
          assert s in sels;
        }
        if i in q {
          QueryAllSound(tree, sels[n], i);
        }
        if exists s | s in sels :: Matches(s, tree[i]) {
          var s :| s in sels && Matches(s, tree[i]);
          if s != sels[n] {
            assert s in sels[..n];
          }
        }
      }
    }
  }

  predicate InRange(es: seq<nat>, n: nat)
  {
    forall k | 0 <= k < |es| :: es[k] < n
  }

  // ---------------------------------------------------------------------------
  // Hiding and restoring

  /** One element the sanitiser hid, with its inline display from before. */
  datatype HiddenElement = HiddenElement(element: nat, originalDisplay: string)

  /** The display states after sanitising, with the records made on the way. */
  datatype Sanitized = Sanitized(display: seq<string>, records: seq<HiddenElement>)

  function Recorded(records: seq<HiddenElement>): set<nat>
  {
    set k | 0 <= k < |records| :: records[k].element
  }

  lemma RecordedAppend(records: seq<HiddenElement>, h: HiddenElement)
    ensures Recorded(records + [h]) == Recorded(records) + {h.element}
  {
    var all := records + [h];
    assert all[|records|] == h;
    forall x | x in Recorded(records) ensures x in Recorded(all) {
      var k :| 0 <= k < |records| && records[k].element == x;
      assert all[k] == records[k];
    }
  }

  predicate Distinct(records: seq<HiddenElement>)
  {
    forall k, l | 0 <= k < l < |records| :: records[k].element != records[l].element
  }

  /**
   * Visiting the elements `es` in order: an element whose display is not "none" is
   * recorded with that display and then set to "none"; one already "none" is skipped.
   */
  function HideAll(display: seq<string>, es: seq<nat>): (r: Sanitized)
    requires InRange(es, |display|)
    ensures |r.display| == |display|
    ensures forall k | 0 <= k < |r.records| :: r.records[k].element < |display|
  {
    if es == [] then Sanitized(display, [])
    else
      var n := |es| - 1;
      var e := es[n];
      var prev := HideAll(display, es[..n]);
      if prev.display[e] != "none" then
        Sanitized(prev.display[e := "none"], prev.records + [HiddenElement(e, prev.display[e])])
      else
        prev
  }

  /** What a sanitising pass does, for any order of visits and any repetitions. */
  lemma {:induction false} HideAllFacts(display: seq<string>, es: seq<nat>)
    requires InRange(es, |display|)
    ensures var r := HideAll(display, es);
      // every visited element ends up hidden, and no other element changes
      && (forall i | 0 <= i < |display| :: r.display[i] == if i in es then "none" else display[i])
      // a record names a visited element that was not hidden before, with its exact display
      && (forall k | 0 <= k < |r.records| ::
            && r.records[k].element in es
            && display[r.records[k].element] != "none"
            && r.records[k].originalDisplay == display[r.records[k].element])
      // every visited element that was not hidden before is recorded, and only once
      && (forall i | 0 <= i < |display| && i in es && display[i] != "none" :: i in Recorded(r.records))
      && Distinct(r.records)
  {
    if es != [] {
      var n := |es| - 1;
      var e := es[n];
      assert es == es[..n] + [e];
      HideAllFacts(display, es[..n]);
      var prev := HideAll(display, es[..n]);
      if prev.display[e] != "none" {
        RecordedAppend(prev.records, HiddenElement(e, prev.display[e]));
      }
    }
  }

  /** Visiting one more element. */
  lemma HideAllSnoc(display: seq<string>, es: seq<nat>, e: nat)
    requires InRange(es, |display|) && e < |display|
    ensures InRange(es + [e], |display|)
    ensures var prev := HideAll(display, es);
      HideAll(display, es + [e]) ==
        if prev.display[e] != "none"
        then Sanitized(prev.display[e := "none"], prev.records + [HiddenElement(e, prev.display[e])])
        else prev
  {
    assert (es + [e])[..|es|] == es;
  }

  /** The sanitiser hides each element it records exactly once, so the number of
      records is the number of distinct visited elements that were not hidden before. */
  lemma HideCount(display: seq<string>, es: seq<nat>)
    requires InRange(es, |display|)
    ensures |HideAll(display, es).records| == |set i | i in es && display[i] != "none"|
  {
    var h := HideAll(display, es);
    HideAllFacts(display, es);
    assert Recorded(h.records) == set i | i in es && display[i] != "none";
    DistinctCount(h.records);
  }

  lemma {:induction false} DistinctCount(records: seq<HiddenElement>)
    requires Distinct(records)
    ensures |Recorded(records)| == |records|
  {
    if records != [] {
      var n := |records| - 1;
      DistinctCount(records[..n]);
      assert records == records[..n] + [records[n]];
      RecordedAppend(records[..n], records[n]);
    }
  }

  /** Putting back each record's display, in record order. */
  function RestoreAll(display: seq<string>, records: seq<HiddenElement>): (r: seq<string>)
    requires forall k | 0 <= k < |records| :: records[k].element < |display|
    ensures |r| == |display|
    ensures forall i | 0 <= i < |display| && i !in Recorded(records) :: r[i] == display[i]
  {
    if records == [] then display
    else
      var n := |records| - 1;
      assert records == records[..n] + [records[n]];
      RecordedAppend(records[..n], records[n]);
      RestoreAll(display, records[..n])[records[n].element := records[n].originalDisplay]
  }

  /** With no element recorded twice, each recorded element gets back exactly its recorded display. */
  lemma {:induction false} RestoreRecorded(display: seq<string>, records: seq<HiddenElement>)
    requires forall k | 0 <= k < |records| :: records[k].element < |display|
    requires Distinct(records)
    ensures forall k | 0 <= k < |records| ::
      RestoreAll(display, records)[records[k].element] == records[k].originalDisplay
  {
    if records != [] {
      var n := |records| - 1;
      RestoreRecorded(display, records[..n]);
    }
  }

  /** Restoring the records of a sanitising pass gives every element its display from
      before the pass, including those that were already "none" and never touched. */
  lemma HideThenRestore(display: seq<string>, es: seq<nat>)
    requires InRange(es, |display|)
    ensures var h := HideAll(display, es);
      RestoreAll(h.display, h.records) == display
  {
    var h := HideAll(display, es);
    var r := RestoreAll(h.display, h.records);
    HideAllFacts(display, es);
    RestoreRecorded(h.display, h.records);
    forall i | 0 <= i < |display| ensures r[i] == display[i] {
      if i in Recorded(h.records) {
        var k :| 0 <= k < |h.records| && h.records[k].element == i;
      }
    }
  }

  // ---------------------------------------------------------------------------
  // The print stylesheet

  datatype StyleNode = StyleNode(id: string, textContent: string)

  const PdfStylesId: string := "pdf-styles"

  /** The injected print rules; their text is not modelled. */
  const PrintStylesheet: string := "@media print { ... }"

  const PdfStyleNode: StyleNode := StyleNode(PdfStylesId, PrintStylesheet)

  /** `getElementById`: the position of the first node carrying `id`, if any. */
  function FindById(nodes: seq<StyleNode>, id: string): (r: Option<nat>)
    ensures r.Some? ==> r.value < |nodes| && nodes[r.value].id == id
    ensures r.Some? ==> forall j | 0 <= j < r.value :: nodes[j].id != id
    ensures r.None? ==> forall j | 0 <= j < |nodes| :: nodes[j].id != id
  {
    if nodes == [] then None
    else if nodes[0].id == id then Some(0)
    else match FindById(nodes[1..], id)
      case None => None
      case Some(k) => Some(k + 1)
  }

  function CountId(nodes: seq<StyleNode>, id: string): nat
  {
    if nodes == [] then 0 else (if nodes[0].id == id then 1 else 0) + CountId(nodes[1..], id)
  }

  lemma {:induction false} CountIdAppend(a: seq<StyleNode>, b: seq<StyleNode>, id: string)
    ensures CountId(a + b, id) == CountId(a, id) + CountId(b, id)
  {
    if a != [] {
      assert (a + b)[0] == a[0];
      assert (a + b)[1..] == a[1..] + b;
      CountIdAppend(a[1..], b, id);
      assert CountId(a + b, id) == (if a[0].id == id then 1 else 0) + CountId(a[1..] + b, id);
    } else {
      assert a + b == b;
    }
  }

  lemma {:induction false} CountIdNone(nodes: seq<StyleNode>, id: string)
    requires forall j | 0 <= j < |nodes| :: nodes[j].id != id
    ensures CountId(nodes, id) == 0
  {
    if nodes != [] {
      CountIdNone(nodes[1..], id);
    }
  }

  /** `getElementById(id)` followed by `remove()` when a node was found. */
  function RemoveFirstById(nodes: seq<StyleNode>, id: string): (r: seq<StyleNode>)
    ensures CountId(nodes, id) == 0 ==> r == nodes
    ensures CountId(nodes, id) > 0 ==> CountId(r, id) == CountId(nodes, id) - 1 && |r| == |nodes| - 1
    ensures CountId(nodes, id) > 0 ==>
      exists k | 0 <= k < |nodes| ::
        && nodes[k].id == id
        && (forall j | 0 <= j < k :: nodes[j].id != id)
        && r == nodes[..k] + nodes[k + 1..]
  {
    match FindById(nodes, id)
    case None =>
      CountIdNone(nodes, id);
      nodes
    case Some(k) =>
      assert nodes == nodes[..k] + [nodes[k]] + nodes[k + 1..];
      CountIdAppend(nodes[..k] + [nodes[k]], nodes[k + 1..], id);
      CountIdAppend(nodes[..k], [nodes[k]], id);
      CountIdAppend(nodes[..k], nodes[k + 1..], id);
      CountIdNone(nodes[..k], id);
      assert CountId([nodes[k]], id) == 1 by {
        assert [nodes[k]][1..] == [];
      }
      nodes[..k] + nodes[k + 1..]
  }

  /** Adding the print stylesheet and then removing it, starting with no node of that
      id, gives back exactly the nodes there were. */
  lemma AddThenRemoveStyles(nodes: seq<StyleNode>)
    requires CountId(nodes, PdfStylesId) == 0
    ensures RemoveFirstById(nodes + [PdfStyleNode], PdfStylesId) == nodes
  {
    var all := nodes + [PdfStyleNode];
    CountIdZero(nodes, PdfStylesId);
    assert all[|nodes|].id == PdfStylesId;
    assert FindById(all, PdfStylesId) == Some(|nodes|);
    assert all[..|nodes|] == nodes;
  }

  lemma {:induction false} CountIdZero(nodes: seq<StyleNode>, id: string)
    requires CountId(nodes, id) == 0
    ensures forall j | 0 <= j < |nodes| :: nodes[j].id != id
  {
    if nodes != [] {
      CountIdZero(nodes[1..], id);
      assert forall j | 1 <= j < |nodes| :: nodes[j] == nodes[1..][j - 1];
    }
  }

  // ---------------------------------------------------------------------------
  // Options

  /** An option value: numbers, flags, colours, or the element filter. */
  datatype OptionValue =
    | Number(n: real)
    | Flag(b: bool)
    | Text(s: string)
    | Filter(ignore: Element -> bool)

  /** An options object: the keys present and their values. An absent key is an option not given. */
  type Options = map<string, OptionValue>

  const DefaultOptions: Options := map[
    "scale" := Number(2.0),
    "useCORS" := Flag(true),
    "allowTaint" := Flag(true),
    "backgroundColor" := Text("#000000"),
    "logging" := Flag(false),
    "width" := Number(1200.0),
    "scrollX" := Number(0.0),
    "scrollY" := Number(0.0)
  ]

  /** `{ ...defaults, ...options }`. */
  function MergeOptions(defaults: Options, options: Options): (r: Options)
    ensures r.Keys == defaults.Keys + options.Keys
    ensures forall k | k in options :: r[k] == options[k]
    ensures forall k | k in defaults && k !in options :: r[k] == defaults[k]
  {
    defaults + options
  }

  /** The renderer's filter for the resume: `no-print` elements, scripts and style sheets. */
  predicate IgnoreForResume(e: Element): (b: bool)
    ensures b <==> Matches(Class("no-print"), e) || Matches(Type("SCRIPT"), e) || Matches(Type("STYLE"), e)
  {
    "no-print" in e.classList || e.tagName == "SCRIPT" || e.tagName == "STYLE"
  }

  /** The options the resume download passes: every default again, plus the filter. */
  const ResumeOptions: Options := map[
    "scale" := Number(2.0),
    "useCORS" := Flag(true),
    "allowTaint" := Flag(true),
    "backgroundColor" := Text("#000000"),
    "logging" := Flag(false),
    "width" := Number(1200.0),
    "scrollX" := Number(0.0),
    "scrollY" := Number(0.0),
    "ignoreElements" := Filter(IgnoreForResume)
  ]

  /** The resume options restate every default, so merging leaves them as they are and
      the renderer sees the resume filter. */
  lemma ResumeOptionsMerged()
    ensures MergeOptions(DefaultOptions, ResumeOptions) == ResumeOptions
    ensures "ignoreElements" !in DefaultOptions
    ensures MergeOptions(DefaultOptions, ResumeOptions)["ignoreElements"] == Filter(IgnoreForResume)
  {
  }

  /** An element with class `no-print` is kept out of the resume twice over: the
      sanitiser hides it and the renderer's filter skips it. */
  lemma NoPrintHiddenAndIgnored(tree: seq<Element>, display: seq<string>, i: nat)
    requires |display| == |tree| && i < |tree|
    requires "no-print" in tree[i].classList
    ensures IgnoreForResume(tree[i])
    ensures HideAll(display, MatchedBy(tree, NonPrintableSelectors)).display[i] == "none"
  {
    assert NonPrintableSelectors[1] == Class("no-print");
    assert Matches(NonPrintableSelectors[1], tree[i]);
    MatchedByCovers(tree, NonPrintableSelectors);
    HideAllFacts(display, MatchedBy(tree, NonPrintableSelectors));
  }

  // ---------------------------------------------------------------------------
  // Pages

  /** A4 width and the page height used, in millimetres. */
  const ImageWidth: real := 210.0
  const PageHeight: real := 295.0

  /** The rasterised page, by its size in pixels. */
  datatype Canvas = Canvas(width: nat, height: nat)

  /** One `addImage` call: the whole image drawn at `(x, y)` with the given size, in millimetres. */
  datatype Placement = Placement(x: real, y: real, width: real, height: real)

  /** The image height once scaled to the page width. */
  function ImageHeight(c: Canvas): (h: real)
    requires c.width > 0
    ensures h >= 0.0
    ensures h * (c.width as real) == (c.height as real) * ImageWidth
  {
    (c.height as real) * ImageWidth / (c.width as real)
  }

  /** The number of pages the export produces for an image of height `h`: the least
      number of page-high windows stacked from the top whose bottom edge lies strictly
      below the image (so an exact multiple gets one window more than it fills). */
  function PageCount(h: real): (n: nat)
    requires h >= 0.0
    ensures ((n - 1) as real) * PageHeight <= h < (n as real) * PageHeight
  {
    (h / PageHeight).Floor + 1
  }

  /** The vertical offset of page `k`'s copy of the image. */
  function Offset(k: nat): real
  {
    -(k as real) * PageHeight
  }

  /**
   * The page loop: the first page draws the image at offset 0; while the remaining
   * height is not negative another page draws it higher by one page height.
   */
  method PlacePages(imgHeight: real) returns (pages: seq<Placement>)
    requires imgHeight >= 0.0
    ensures |pages| == PageCount(imgHeight)
    ensures forall k | 0 <= k < |pages| :: pages[k] == Placement(0.0, Offset(k), ImageWidth, imgHeight)
  {
    var heightLeft := imgHeight;
    var position := 0.0;
    pages := [Placement(0.0, position, ImageWidth, imgHeight)];
    heightLeft := heightLeft - PageHeight;
    while heightLeft >= 0.0
      invariant |pages| >= 1
      invariant heightLeft == imgHeight - (|pages| as real) * PageHeight
      invariant ((|pages| - 1) as real) * PageHeight <= imgHeight
      invariant forall k | 0 <= k < |pages| :: pages[k] == Placement(0.0, Offset(k), ImageWidth, imgHeight)
      decreases heightLeft.Floor + 1
    {
      position := heightLeft - imgHeight;
      pages := pages + [Placement(0.0, position, ImageWidth, imgHeight)];
      heightLeft := heightLeft - PageHeight;
    }
    assert (|pages| - 1) as real <= imgHeight / PageHeight < |pages| as real;
  }

  /** Row `t` of the image is visible on page `k` when it falls inside that page. */
  predicate ShowsRow(k: nat, t: real)
  {
    0.0 <= Offset(k) + t < PageHeight
  }

  /** Every row of the image appears on exactly one page, and that page is produced. */
  lemma EachRowOnOnePage(h: real, t: real)
    requires 0.0 <= t < h
    ensures (t / PageHeight).Floor < PageCount(h)
    ensures forall k: nat :: ShowsRow(k, t) <==> k == (t / PageHeight).Floor
  {
    var f := (t / PageHeight).Floor;
    assert (f as real) * PageHeight <= t < (f as real + 1.0) * PageHeight;
    forall k: nat ensures ShowsRow(k, t) <==> k == f {
      if ShowsRow(k, t) {
        assert (k as real) <= t / PageHeight < (k as real) + 1.0;
      }
    }
  }

  /** The last page shows no row of the image exactly when the image height is a whole
      number of pages: then the loop's `>= 0` test has added a page past the end. */
  lemma LastPageBlankIffWholePages(h: real)
    requires h >= 0.0
    ensures Offset(PageCount(h) - 1) + h <= 0.0 <==> ((h / PageHeight).Floor as real) * PageHeight == h
  {
  }

  /** A 1200 x 3600 capture scales to 630 mm, which the export spreads over three pages. */
  lemma ThreePageCapture()
    ensures ImageHeight(Canvas(1200, 3600)) == 630.0
    ensures PageCount(630.0) == 3
  {
  }

  /** After a failed export as written, a page whose one element is a visible `nav`
      is left with that element hidden: the state `GeneratePdf` ends in on failure. */
  lemma FailedExportLeavesNavHidden()
    ensures HideAll([""], MatchedBy([Element("NAV", {}, {})], NonPrintableSelectors)).display == ["none"]
  {
    var tree := [Element("NAV", {}, {})];
    var matched := MatchedBy(tree, NonPrintableSelectors);
    MatchedByCovers(tree, NonPrintableSelectors);
    assert Matches(NonPrintableSelectors[0], tree[0]);
    assert 0 in matched;
    HideAllFacts([""], matched);
  }

  // ---------------------------------------------------------------------------
  // The export

  datatype Metadata = Metadata(title: string, subject: string, author: string, keywords: string, creator: string)

  const ResumeMetadata: Metadata := Metadata(
    "Vu Le - Full Stack & Smart Contract Developer Resume",
    "Professional Resume",
    "Vu Le",
    "Full Stack Developer, Smart Contract Developer, Blockchain, Resume",
    "Portfolio Website")

  datatype Pdf = Pdf(pages: seq<Placement>, properties: Metadata)

  /** A saved document and its file name, or the message of the error toast. */
  datatype ExportOutcome = Saved(pdf: Pdf, filename: string) | Failed(message: string)

  const ErrorMessage: string := "Failed to generate PDF. Please try again."

  const DefaultFilename: string := "Vu_Le_Resume.pdf"

  /** The rasteriser: given the merged options, a canvas or the error it throws. */
  type Rasteriser = Options -> Result<Canvas, string>

  class Document {
    /** The elements in document order; the export does not change them. */
    const tree: seq<Element>
    /** The inline `style.display` of each element. */
    var display: seq<string>
    /** The style nodes of the document head. */
    var head: seq<StyleNode>

    ghost predicate Valid()
      reads this
    {
      |display| == |tree|
    }

    constructor (tree: seq<Element>, display: seq<string>, head: seq<StyleNode>)
      requires |display| == |tree|
      ensures Valid()
      ensures this.tree == tree && this.display == display && this.head == head
    {
      this.tree := tree;
      this.display := display;
      this.head := head;
    }

    /** Hides every element a non-printable selector matches, recording the display of
        each one that was not hidden already. */
    method HideNonPrintableElements() returns (records: seq<HiddenElement>)
      requires Valid()
      modifies this`display
      ensures Valid()
      ensures Sanitized(display, records) == HideAll(old(display), MatchedBy(tree, NonPrintableSelectors))
    {
      records := [];
      var i := 0;
      while i < |NonPrintableSelectors|
        invariant 0 <= i <= |NonPrintableSelectors|
        invariant Valid()
        invariant Sanitized(display, records) == HideAll(old(display), MatchedBy(tree, NonPrintableSelectors[..i]))
      {
        var matched := QueryAll(tree, NonPrintableSelectors[i]);
        records := HideEach(matched, records, old(display), MatchedBy(tree, NonPrintableSelectors[..i]));
        assert NonPrintableSelectors[..i + 1][..i] == NonPrintableSelectors[..i];
        i := i + 1;
      }
      assert NonPrintableSelectors[..i] == NonPrintableSelectors;
    }

    /** The inner loop of the sanitiser: visits the elements one selector matched,
        adding to the records of the elements `visited` so far. */
    method HideEach(matched: seq<nat>, records: seq<HiddenElement>, ghost start: seq<string>, ghost visited: seq<nat>)
      returns (extended: seq<HiddenElement>)
      requires Valid() && |start| == |tree|
      requires InRange(matched, |tree|) && InRange(visited, |tree|)
      requires Sanitized(display, records) == HideAll(start, visited)
      modifies this`display
      ensures Valid()
      ensures InRange(visited + matched, |tree|)
      ensures Sanitized(display, extended) == HideAll(start, visited + matched)
    {
      extended := records;
      ghost var seen := visited;
      var j := 0;
      while j < |matched|
        invariant 0 <= j <= |matched|
        invariant Valid()
        invariant seen == visited + matched[..j]
        invariant InRange(seen, |tree|)
        invariant Sanitized(display, extended) == HideAll(start, seen)
      {
        var e := matched[j];
        HideAllSnoc(start, seen, e);
        if display[e] != "none" {
          extended := extended + [HiddenElement(e, display[e])];
          display := display[e := "none"];
        }
        seen := seen + [e];
        assert matched[..j + 1] == matched[..j] + [e];
        j := j + 1;
      }
      assert matched[..j] == matched;
    }

    /** Sets each recorded element's display back to its recorded value, in record order. */
    method RestoreHiddenElements(records: seq<HiddenElement>)
      requires Valid()
      requires forall k | 0 <= k < |records| :: records[k].element < |display|
      modifies this`display
      ensures Valid()
      ensures display == RestoreAll(old(display), records)
    {
      for k := 0 to |records|
        invariant Valid()
        invariant display == RestoreAll(old(display), records[..k])
      {
        assert records[..k + 1][..k] == records[..k];
        display := display[records[k].element := records[k].originalDisplay];
      }
      assert records[..|records|] == records;
    }

    method AddPdfStyles()
      modifies this`head
      ensures head == old(head) + [PdfStyleNode]
    {
      head := head + [PdfStyleNode];
    }

    method RemovePdfStyles()
      modifies this`head
      ensures head == RemoveFirstById(old(head), PdfStylesId)
    {
      var found := FindById(head, PdfStylesId);
      if found.Some? {
        var k := found.value;
        head := head[..k] + head[k + 1..];
      }
    }

    /**
     * The export. When the rasteriser throws, the error is only reported: the hidden
     * elements stay hidden and the print stylesheet stays in the head. Otherwise both
     * are undone before the pages are laid out. `pdfSucceeds` says whether building and
     * saving the document (`toDataURL`, `addPage`, `addImage`, `save`) completes; when it
     * throws, for instance on a canvas tainted by a cross-origin image, the same error is
     * reported, after the page has been restored.
     */
    method GeneratePdf(filename: string, options: Options, rasterise: Rasteriser, pdfSucceeds: bool)
      returns (outcome: ExportOutcome)
      requires Valid()
      requires var r := rasterise(MergeOptions(DefaultOptions, options)); r.Success? ==> r.value.width > 0
      modifies this`display, this`head
      ensures Valid()
      ensures var hidden := HideAll(old(display), MatchedBy(tree, NonPrintableSelectors));
        rasterise(MergeOptions(DefaultOptions, options)).Failure? ==>
          && outcome == Failed(ErrorMessage)
          && display == hidden.display
          && head == old(head) + [PdfStyleNode]
      ensures rasterise(MergeOptions(DefaultOptions, options)).Success? ==>
        && display == old(display)
        && head == RemoveFirstById(old(head) + [PdfStyleNode], PdfStylesId)
      ensures rasterise(MergeOptions(DefaultOptions, options)).Success? && !pdfSucceeds ==>
        outcome == Failed(ErrorMessage)
      ensures var r := rasterise(MergeOptions(DefaultOptions, options));
        r.Success? && pdfSucceeds ==>
          && outcome.Saved?
          && outcome.filename == filename
          && outcome.pdf.properties == ResumeMetadata
          && |outcome.pdf.pages| == PageCount(ImageHeight(r.value))
          && forall k | 0 <= k < |outcome.pdf.pages| ::
               outcome.pdf.pages[k] == Placement(0.0, Offset(k), ImageWidth, ImageHeight(r.value))
    {
      var canvasOptions := MergeOptions(DefaultOptions, options);
      var elementsToHide := HideNonPrintableElements();
      AddPdfStyles();
      var rendered := rasterise(canvasOptions);
      if rendered.Failure? {
        return Failed(ErrorMessage);
      }
      var canvas := rendered.value;
      RestoreHiddenElements(elementsToHide);
      HideThenRestore(old(display), MatchedBy(tree, NonPrintableSelectors));
      RemovePdfStyles();
      var imgHeight := ImageHeight(canvas);
      var pages := PlacePages(imgHeight);
      if !pdfSucceeds {
        return Failed(ErrorMessage);
      }
      outcome := Saved(Pdf(pages, ResumeMetadata), filename);
    }

    /**
     * The export with its cleanup on every exit path: the elements hidden "temporarily"
     * (src/utils/pdfGenerator.ts:60) and the print stylesheet are undone whether or not
     * the rasteriser throws.
     */
    method GeneratePdfWithCleanup(filename: string, options: Options, rasterise: Rasteriser, pdfSucceeds: bool)
      returns (outcome: ExportOutcome)
      requires Valid()
      requires var r := rasterise(MergeOptions(DefaultOptions, options)); r.Success? ==> r.value.width > 0
      modifies this`display, this`head
      ensures Valid()
      ensures display == old(display)
      ensures head == RemoveFirstById(old(head) + [PdfStyleNode], PdfStylesId)
      ensures rasterise(MergeOptions(DefaultOptions, options)).Failure? || !pdfSucceeds ==>
        outcome == Failed(ErrorMessage)
      ensures var r := rasterise(MergeOptions(DefaultOptions, options));
        r.Success? && pdfSucceeds ==>
          && outcome.Saved?
          && outcome.filename == filename
          && outcome.pdf.properties == ResumeMetadata
          && |outcome.pdf.pages| == PageCount(ImageHeight(r.value))
          && forall k | 0 <= k < |outcome.pdf.pages| ::
               outcome.pdf.pages[k] == Placement(0.0, Offset(k), ImageWidth, ImageHeight(r.value))
    {
      var canvasOptions := MergeOptions(DefaultOptions, options);
      var elementsToHide := HideNonPrintableElements();
      AddPdfStyles();
      var rendered := rasterise(canvasOptions);
      RestoreHiddenElements(elementsToHide);
      HideThenRestore(old(display), MatchedBy(tree, NonPrintableSelectors));
      RemovePdfStyles();
      if rendered.Failure? || !pdfSucceeds {
        return Failed(ErrorMessage);
      }
      var imgHeight := ImageHeight(rendered.value);
      var pages := PlacePages(imgHeight);
      outcome := Saved(Pdf(pages, ResumeMetadata), filename);
    }

    /** `generatePDF()` with its default arguments: the standard file name and no options. */
    method GenerateDefaultPdf(rasterise: Rasteriser, pdfSucceeds: bool) returns (outcome: ExportOutcome)
      requires Valid()
      requires var r := rasterise(DefaultOptions); r.Success? ==> r.value.width > 0
      modifies this`display, this`head
      ensures Valid()
      ensures rasterise(DefaultOptions).Failure? ==>
        && outcome == Failed(ErrorMessage)
        && display == HideAll(old(display), MatchedBy(tree, NonPrintableSelectors)).display
        && head == old(head) + [PdfStyleNode]
      ensures rasterise(DefaultOptions).Success? ==>
        && display == old(display)
        && head == RemoveFirstById(old(head) + [PdfStyleNode], PdfStylesId)
        && (if pdfSucceeds then outcome.Saved? && outcome.filename == DefaultFilename
            else outcome == Failed(ErrorMessage))
    {
      assert MergeOptions(DefaultOptions, map[]) == DefaultOptions;
      outcome := GeneratePdf(DefaultFilename, map[], rasterise, pdfSucceeds);
    }

    /**
     * The resume download: the dated file name and the resume options, through the
     * export as written, so a rasteriser failure leaves the page sanitised.
     */
    method GenerateResumePdf(timestamp: string, rasterise: Rasteriser, pdfSucceeds: bool)
      returns (outcome: ExportOutcome)
      requires Valid()
      requires var r := rasterise(ResumeOptions); r.Success? ==> r.value.width > 0
      modifies this`display, this`head
      ensures Valid()
      ensures rasterise(ResumeOptions).Failure? ==>
        && outcome == Failed(ErrorMessage)
        && display == HideAll(old(display), MatchedBy(tree, NonPrintableSelectors)).display
        && head == old(head) + [PdfStyleNode]
      ensures rasterise(ResumeOptions).Success? ==>
        && display == old(display)
        && head == RemoveFirstById(old(head) + [PdfStyleNode], PdfStylesId)
      ensures rasterise(ResumeOptions).Success? && !pdfSucceeds ==> outcome == Failed(ErrorMessage)
      ensures var r := rasterise(ResumeOptions);
        r.Success? && pdfSucceeds ==>
          && outcome.Saved?
          && outcome.filename == DatedResumeFilename(timestamp)
          && |outcome.pdf.pages| == PageCount(ImageHeight(r.value))
    {
      ResumeOptionsMerged();
      outcome := GeneratePdf(DatedResumeFilename(timestamp), ResumeOptions, rasterise, pdfSucceeds);
    }

    /** The resume download through the corrected export: the page is restored on every path. */
    method GenerateResumePdfWithCleanup(timestamp: string, rasterise: Rasteriser, pdfSucceeds: bool)
      returns (outcome: ExportOutcome)
      requires Valid()
      requires var r := rasterise(ResumeOptions); r.Success? ==> r.value.width > 0
      modifies this`display, this`head
      ensures Valid()
      ensures display == old(display)
      ensures head == RemoveFirstById(old(head) + [PdfStyleNode], PdfStylesId)
      ensures rasterise(ResumeOptions).Failure? || !pdfSucceeds ==> outcome == Failed(ErrorMessage)
      ensures var r := rasterise(ResumeOptions);
        r.Success? && pdfSucceeds ==>
          && outcome.Saved?
          && outcome.filename == DatedResumeFilename(timestamp)
          && |outcome.pdf.pages| == PageCount(ImageHeight(r.value))
    {
      ResumeOptionsMerged();
      outcome := GeneratePdfWithCleanup(DatedResumeFilename(timestamp), ResumeOptions, rasterise, pdfSucceeds);
    }
  }
}
