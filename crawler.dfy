/** The link and page filters of the bestiary crawler. Fetching and parsing
    pages is not modelled: the filters work on the hrefs, footer texts and
    title a page yields, and on the lines of the index file. */
module Crawler {
  import opened Text

  /** Links that lead to non-creature entries or third-party content. */
  const PROBLEM_LINKS: seq<string> := [
    "/chimera", "/corgi-dire", "/darkwood-cobra", "/demodand-shaggy", "/demodand-slimy",
    "/demodand-tarry", "/demon-kalavakus", "/dlurgraven", "/dretch", "/formian-hive-queen",
    "/gashadokuru", "/great-white-shark", "/lemure", "/mimic-failed-apotheosis",
    "/minotaur-elder", "/mithral-cobra", "/mold-russet", "/protean-keketar",
    "/protean-imentesh", "/sinspawn-hub", "/zombie-hill-giant", "sites.google.com",
    "templates", "TOC-"]

  const PROBLEM_SUFFIXES: seq<string> := ["-TOHC", "-tohc", "-3PP", "-ff", "-kp", "-mb", "/beheaded", "/rakshasa"]

  const THIRD_PARTY_PUBLISHERS: seq<string> := [
    "4 Winds Fantasy Gaming", "Alluria Publishing", "Frog God Games", "Green Ronin Publishing",
    "Jon Brazer Enterprises", "Mystic Eye Games", "Necromancer Games", "Open Design LLC",
    "Paizo Fans United", "Super Genius Games", "The Way of the Samurai",
    "Tricky Owlbear Publishing"]

  // ---------------------------------------------------------------- problem links

  /** The link contains a listed fragment or ends with a listed suffix. */
  predicate ProblemLink(link: string)
  {
    || (exists i :: 0 <= i < |PROBLEM_LINKS| && Contains(link, PROBLEM_LINKS[i]))
    || (exists i :: 0 <= i < |PROBLEM_SUFFIXES| && EndsWith(link, PROBLEM_SUFFIXES[i]))
  }

  /** `link[-len(s):] == s` is "ends with `s`" for a nonempty `s`, also when the
      link is shorter than `s` (the slice is then the whole link). */
  lemma SuffixSlice(link: string, s: string)
    requires |s| > 0
    ensures Slice(link, -|s|, |link|) == s <==> EndsWith(link, s)
  {
    if |s| > |link| {
      assert Slice(link, -|s|, |link|) == link;
    }
  }

  /** `is_problem_link`: two loops, each returning as soon as one entry matches. */
  method IsProblemLink(link: string) returns (b: bool)
    ensures b == ProblemLink(link)
  {
    for i := 0 to |PROBLEM_LINKS|
      invariant forall j :: 0 <= j < i ==> !Contains(link, PROBLEM_LINKS[j])
    {
      if Contains(link, PROBLEM_LINKS[i]) {
        return true;
      }
    }
    for i := 0 to |PROBLEM_SUFFIXES|
      invariant forall j :: 0 <= j < i ==> !EndsWith(link, PROBLEM_SUFFIXES[j])
    {
      var suffix := PROBLEM_SUFFIXES[i];
      SuffixSlice(link, suffix);
      if Slice(link, -1 * |suffix|, |link|) == suffix {
        return true;
      }
    }
    return false;
  }

  // ---------------------------------------------------------------- keeping links

  /** The hrefs, in order, that are present and pass `keep`. */
  function Kept(hrefs: seq<Option<string>>, keep: string -> bool): (r: seq<string>)
    ensures |r| <= |hrefs|
  {
    if hrefs == [] then []
    else
      var h := hrefs[|hrefs| - 1];
      Kept(hrefs[..|hrefs| - 1], keep) + (if h.Some? && keep(h.value) then [h.value] else [])
  }

  /** `idx` lists, in increasing order, positions of `hrefs` holding the links
      `r`, and every position whose href is present and passes `keep` is among them. */
  predicate Positions(hrefs: seq<Option<string>>, keep: string -> bool, r: seq<string>, idx: seq<nat>)
  {
    && |idx| == |r|
    && (forall j :: 0 <= j < |idx| ==> idx[j] < |hrefs| && hrefs[idx[j]] == Some(r[j]))
    && (forall j, k :: 0 <= j < k < |idx| ==> idx[j] < idx[k])
    && (forall i :: 0 <= i < |hrefs| && hrefs[i].Some? && keep(hrefs[i].value) ==> i in idx)
  }

  /** The kept links are the present hrefs that pass `keep`, in their input
      order: there are increasing positions of the hrefs holding them, and every
      position whose href passes is among those. */
  lemma {:induction false} KeptPositions(hrefs: seq<Option<string>>, keep: string -> bool) returns (idx: seq<nat>)
    ensures Positions(hrefs, keep, Kept(hrefs, keep), idx)
  {
    if hrefs == [] {
      return [];
    }
    var n := |hrefs| - 1;
    var pre := KeptPositions(hrefs[..n], keep);
    idx := PositionsExtend(hrefs, keep, Kept(hrefs[..n], keep), pre);
  }

  /** Positions for all hrefs but the last extend to all of them. */
  lemma PositionsExtend(hrefs: seq<Option<string>>, keep: string -> bool, r: seq<string>, pre: seq<nat>)
    returns (idx: seq<nat>)
    requires hrefs != [] && Positions(hrefs[..|hrefs| - 1], keep, r, pre)
    ensures var h := hrefs[|hrefs| - 1];
      Positions(hrefs, keep, r + (if h.Some? && keep(h.value) then [h.value] else []), idx)
  {
    var n := |hrefs| - 1;
    var front := hrefs[..n];
    var h := hrefs[n];
    assert forall i :: 0 <= i < n ==> front[i] == hrefs[i];
    if h.Some? && keep(h.value) {
      idx := pre + [n];
      assert forall j :: 0 <= j < |pre| ==> idx[j] == pre[j];
    } else {
      idx := pre;
    }
    forall i | 0 <= i < |hrefs| && hrefs[i].Some? && keep(hrefs[i].value)
      ensures i in idx
    {
      if i < n {
        assert front[i] == hrefs[i];
      }
    }
  }

  /** Every kept link passes `keep`. */
  lemma {:induction false} KeptSound(hrefs: seq<Option<string>>, keep: string -> bool)
    ensures forall l :: l in Kept(hrefs, keep) ==> keep(l)
  {
    if hrefs != [] {
      KeptSound(hrefs[..|hrefs| - 1], keep);
    }
  }

  /** The crawler's keep-filter: a creature listing that is not a problem link. */
  predicate KeepLink(link: string)
  {
    Contains(link, "monster-listings/") && !ProblemLink(link)
  }

  /** The loop of `get_creature_links`, over the hrefs of the page's anchors. */
  method GetCreatureLinks(hrefs: seq<Option<string>>) returns (links: seq<string>)
    ensures links == Kept(hrefs, KeepLink)
  {
    links := [];
    for i := 0 to |hrefs|
      invariant links == Kept(hrefs[..i], KeepLink)
    {
      var link := hrefs[i];
      assert hrefs[..i + 1][..i] == hrefs[..i];
      if link.Some? && Contains(link.value, "monster-listings/") {
        var problem := IsProblemLink(link.value);
        if !problem {
          links := links + [link.value];
        }
      }
    }
    assert hrefs[..|hrefs|] == hrefs;
  }

  // ---------------------------------------------------------------- index lines

  /** The loop of `get_html_indeces`, over the lines read from the index file:
      each line loses its trailing whitespace in place. */
  method StripLines(lines: array<string>)
    modifies lines
    ensures forall i :: 0 <= i < lines.Length ==> lines[i] == RStrip(old(lines[i]))
  {
    var i := 0;
    while i < lines.Length
      invariant 0 <= i <= lines.Length
      invariant forall j :: 0 <= j < i ==> lines[j] == RStrip(old(lines[j]))
      invariant forall j :: i <= j < lines.Length ==> lines[j] == old(lines[j])
    {
      lines[i] := RStrip(lines[i]);
      i := i + 1;
    }
  }

  /** A stripped line is a prefix of the line that differs from it only by
      whitespace, and stripping it again changes nothing. */
  lemma StrippedLine(s: string)
    ensures var r := RStrip(s);
      && r == s[..|r|] && (r == [] || !IsSpace(r[|r| - 1]))
      && (forall i :: |r| <= i < |s| ==> IsSpace(s[i]))
      && RStrip(r) == r
  {
  }

  // ---------------------------------------------------------------- problem pages

  /** A footer carrying a copyright marker: the character \xc2, "(c)" or "Copyright". */
  predicate CopyrightMarked(footer: string)
  {
    'Â' in footer || Contains(footer, "(c)") || Contains(footer, "Copyright")
  }

  predicate NamesPublisher(footer: string)
  {
    exists i :: 0 <= i < |THIRD_PARTY_PUBLISHERS| && Contains(footer, THIRD_PARTY_PUBLISHERS[i])
  }

  /** The page is third-party: a marked footer names a listed publisher, or the
      title (when it is present) contains "3pp". */
  predicate ProblemPage(footers: seq<string>, title: Option<string>)
  {
    || (exists j :: 0 <= j < |footers| && CopyrightMarked(footers[j]) && NamesPublisher(footers[j]))
    || (title.Some? && Contains(title.value, "3pp"))
  }

  /** `is_problem_page`, from the footer texts and the texts of the page's
      title elements (`None` for an element without text). The footers are
      checked first; only when none flags the page is the first title element
      read, which raises `IndexError` when the page has none. */
  method IsProblemPage(footers: seq<string>, titles: seq<Option<string>>) returns (r: Result<bool>)
    ensures r.Err? <==> titles == [] && !ProblemPage(footers, None)
    ensures r.Err? ==> r.error == IndexError
    ensures r.Ok? ==> r.value == ProblemPage(footers, if titles == [] then None else titles[0])
  {
    for j := 0 to |footers|
      invariant forall k :: 0 <= k < j ==> !(CopyrightMarked(footers[k]) && NamesPublisher(footers[k]))
    {
      var footer := footers[j];
      if 'Â' in footer || Contains(footer, "(c)") || Contains(footer, "Copyright") {
        for i := 0 to |THIRD_PARTY_PUBLISHERS|
          invariant forall k :: 0 <= k < i ==> !Contains(footer, THIRD_PARTY_PUBLISHERS[k])
        {
          if Contains(footer, THIRD_PARTY_PUBLISHERS[i]) {
            return Ok(true);
          }
        }
      }
    }
    if titles == [] {
      return Err(IndexError);
    }
    var title := titles[0];
    if title.Some? && Contains(title.value, "3pp") {
      return Ok(true);
    }
    return Ok(false);
  }

  /** Footers without a copyright marker never flag a page, whatever publisher
      they name: the verdict is then the title's alone. A footer with none of
      the characters that begin a marker ('Â', '(' and 'C') has no marker. */
  lemma UnmarkedFootersIgnored(footers: seq<string>, title: Option<string>)
    ensures (forall j :: 0 <= j < |footers| ==> 'Â' !in footers[j] && '(' !in footers[j] && 'C' !in footers[j]) ==>
      forall j :: 0 <= j < |footers| ==> !CopyrightMarked(footers[j])
    ensures (forall j :: 0 <= j < |footers| ==> !CopyrightMarked(footers[j])) ==>
      (ProblemPage(footers, title) <==> title.Some? && Contains(title.value, "3pp"))
  {
    forall j | 0 <= j < |footers| && '(' !in footers[j] && 'C' !in footers[j]
      ensures !Contains(footers[j], "(c)") && !Contains(footers[j], "Copyright")
    {
      if Contains(footers[j], "(c)") {
        ContainsFirstChar(footers[j], "(c)");
      }
      if Contains(footers[j], "Copyright") {
        ContainsFirstChar(footers[j], "Copyright");
      }
    }
  }

  /** A footer that names a publisher without a copyright marker does not make
      the page a problem page. */
  lemma PublisherWithoutMarker(footer: string)
    requires footer == THIRD_PARTY_PUBLISHERS[2]
    ensures NamesPublisher(footer)
    ensures !ProblemPage([footer], None)
  {
    assert OccursAt(footer, THIRD_PARTY_PUBLISHERS[2], 0);
    assert '(' !in footer;
    assert 'C' !in footer;
    assert 'Â' !in footer;
    if Contains(footer, "(c)") {
      ContainsFirstChar(footer, "(c)");
    }
    if Contains(footer, "Copyright") {
      ContainsFirstChar(footer, "Copyright");
    }
  }

  /** The same footer after a copyright line does. */
  lemma PublisherWithMarker(footer: string)
    requires footer == "(c) " + THIRD_PARTY_PUBLISHERS[2]
    ensures ProblemPage([footer], None)
  {
    assert OccursAt(footer, "(c)", 0);
    assert OccursAt(footer, THIRD_PARTY_PUBLISHERS[2], 4);
    assert CopyrightMarked(footer) && NamesPublisher(footer);
    assert [footer][0] == footer;
  }
}
