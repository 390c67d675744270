/** The first version of the bestiary crawler: a creature record holding a name
    and a rating, and a link filter that only rejects one suffix family. The
    page's cells and anchors are given as the texts the selectors yield. */
module CrawlerPrototype {
  import opened Text
  import Crawler

  /** The rating starts as the integer 0 and becomes the text of a table cell. */
  datatype Rating = Number(n: int) | CellText(text: Option<string>)

  /** `PFCreatureInfo`. A cell's text is `None` when the cell has none. */
  class CreatureInfo {
    var name: Option<string>
    var cr: Rating

    /** A fresh record has the empty name and rating 0. */
    constructor ()
      ensures name == Some("") && cr == Number(0)
    {
      name := Some("");
      cr := Number(0);
    }

    /** `update_name_and_cr`: the header cells of the layout tile, or its data
        cells when there are no header cells, give the name (first cell) and the
        rating (second cell). A missing first cell raises `IndexError` before any
        change; a missing second cell raises it after the name is set. */
    method UpdateNameAndCr(headerCells: seq<Option<string>>, dataCells: seq<Option<string>>) returns (o: Outcome)
      modifies this
      ensures var cells := if headerCells != [] then headerCells else dataCells;
        && (o.Pass? <==> |cells| >= 2)
        && (o.Fail? ==> o.error == IndexError)
        && name == (if cells == [] then old(name) else cells[0])
        && cr == (if |cells| >= 2 then CellText(cells[1]) else old(cr))
    {
      var topBar := headerCells;
      if topBar == [] {
        topBar := dataCells;
      }
      if |topBar| == 0 {
        return Fail(IndexError);
      }
      name := topBar[0];
      if |topBar| < 2 {
        return Fail(IndexError);
      }
      cr := CellText(topBar[1]);
      return Pass;
    }
  }

  /** The prototype's keep-filter: a creature listing without "-TOHC" or "-tohc". */
  predicate KeepPrototypeLink(link: string)
  {
    Contains(link, "monster-listings/") && !Contains(link, "-TOHC") && !Contains(link, "-tohc")
  }

  /** The loop of `get_creature_links`, over the hrefs of the page's anchors. */
  method GetCreatureLinks(hrefs: seq<Option<string>>) returns (links: seq<string>)
    ensures links == Crawler.Kept(hrefs, KeepPrototypeLink)
  {
    links := [];
    for i := 0 to |hrefs|
      invariant links == Crawler.Kept(hrefs[..i], KeepPrototypeLink)
    {
      var link := hrefs[i];
      assert hrefs[..i + 1][..i] == hrefs[..i];
      if link.Some? && Contains(link.value, "monster-listings/") && !Contains(link.value, "-TOHC") && !Contains(link.value, "-tohc") {
        links := links + [link.value];
      }
    }
    assert hrefs[..|hrefs|] == hrefs;
  }

  /** Each kept link is a creature listing without either rejected fragment. */
  lemma KeptLinks(hrefs: seq<Option<string>>)
    ensures forall l :: l in Crawler.Kept(hrefs, KeepPrototypeLink) ==>
      Contains(l, "monster-listings/") && !Contains(l, "-TOHC") && !Contains(l, "-tohc")
  {
    Crawler.KeptSound(hrefs, KeepPrototypeLink);
  }

  /** A link the newer crawler keeps is rejected here only for a "-TOHC" or
      "-tohc" fragment that is not at its end; a link that only fails the
      prototype's test is a problem link for the newer crawler. */
  lemma FiltersCompared(link: string)
    ensures Crawler.KeepLink(link) && !KeepPrototypeLink(link) ==>
      (Contains(link, "-TOHC") && !EndsWith(link, "-TOHC")) || (Contains(link, "-tohc") && !EndsWith(link, "-tohc"))
    ensures KeepPrototypeLink(link) && !Crawler.KeepLink(link) ==> Crawler.ProblemLink(link)
  {
    if Crawler.KeepLink(link) && !KeepPrototypeLink(link) {
      assert Crawler.PROBLEM_SUFFIXES[0] == "-TOHC" && Crawler.PROBLEM_SUFFIXES[1] == "-tohc";
    }
  }
}
