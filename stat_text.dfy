/**
  * The free functions of the stat-block text pipeline in
  * data-mining/bestiary/core/creature.py (repeated verbatim at the top of
  * core/builders/creature/d20pfsrd.py): splicing text, spacing keywords,
  * normalising a raw stat block, formatting a creature name and reading the
  * challenge rating and mythic rank out of a "CR n[/MR m]" fragment.
  */
module StatText {
  import opened Text

  /** The section and attribute keywords of the first spacing pass. */
  const ATTRIBUTES: seq<string> := [
    "DEFENSE", "hp", "AC", "touch", "flat-footed",
    "Fort", "Ref", "Will", "Defensive", "DR", "Resist", "Immune",
    "STATISTICS", "Base"
  ]

  /** The ability abbreviations of the second spacing pass. */
  const ABILITIES: seq<string> := ["Str", "Dex", "Con", "Int", "Wis", "Cha"]

  // ---------------------------------------------------------------- insert_text

  /** `insert_text`: `orig[:index] + ins + orig[index:]`. Taking `ins` back out
      at the position the slice used restores `orig`. */
  function InsertText(orig: string, index: int, ins: string): (r: string)
    ensures |r| == |orig| + |ins|
    ensures var p := SliceIndex(index, |orig|);
      r[p..p + |ins|] == ins && r[..p] + r[p + |ins|..] == orig
  {
    var p := SliceIndex(index, |orig|);
    orig[..p] + ins + orig[p..]
  }

  /** Inserting one space at each index of `ps` in turn. */
  function InsertSpaces(s: string, ps: seq<int>): (r: string)
    decreases |ps|
    ensures forall c :: c in r ==> c in s || c == ' '
  {
    if ps == [] then s else InsertSpaces(InsertText(s, ps[0], " "), ps[1..])
  }

  /** Undoing `InsertSpaces`: the spaces are taken out again, last one first. */
  function DeleteInserted(r: string, ps: seq<int>): string
    decreases |ps|
  {
    if ps == [] || r == [] then r
    else
      var p := SliceIndex(ps[|ps| - 1], |r| - 1);
      DeleteInserted(r[..p] + r[p + 1..], ps[..|ps| - 1])
  }

  lemma {:induction false} InsertSpacesLength(s: string, ps: seq<int>)
    ensures |InsertSpaces(s, ps)| == |s| + |ps|
    decreases |ps|
  {
    if ps != [] {
      InsertSpacesLength(InsertText(s, ps[0], " "), ps[1..]);
    }
  }

  lemma {:induction false} InsertSpacesAppend(s: string, ps: seq<int>, qs: seq<int>)
    ensures InsertSpaces(s, ps + qs) == InsertSpaces(InsertSpaces(s, ps), qs)
    decreases |ps|
  {
    if ps != [] {
      assert (ps + qs)[1..] == ps[1..] + qs;
      InsertSpacesAppend(InsertText(s, ps[0], " "), ps[1..], qs);
    } else {
      assert ps + qs == qs;
    }
  }

  /** Every space `InsertSpaces` adds can be taken out again, giving back the text. */
  lemma {:induction false} DeleteInsertedSpaces(s: string, ps: seq<int>)
    ensures DeleteInserted(InsertSpaces(s, ps), ps) == s
    decreases |ps|
  {
    if ps != [] {
      var init, last := ps[..|ps| - 1], ps[|ps| - 1];
      assert ps == init + [last];
      InsertSpacesAppend(s, init, [last]);
      var mid := InsertSpaces(s, init);
      assert InsertSpaces(mid, [last]) == InsertText(mid, last, " ");
      var r := InsertText(mid, last, " ");
      assert r != [];
      var p := SliceIndex(last, |r| - 1);
      assert r[..p] + r[p + 1..] == mid;
      DeleteInsertedSpaces(s, init);
    }
  }

  // ---------------------------------------------------------------- check_text_for_spaces

  /** The first half of one turn of `check_text_for_spaces`'s loop: pad the
      character after the keyword's first occurrence at or after `start`. When
      `word` is absent `find` gives -1, and the code still reads and pads the
      character at index `len(word) - 1`, as written. */
  function PadAfter(text: string, word: string, start: int): Result<string>
  {
    var indx := Find(text, word, start);
    var after :- At(text, indx + |word|);
    Ok(if after != ' ' then InsertText(text, indx + |word|, " ") else text)
  }

  /** The second half: pad the character before the (re-found) occurrence; for
      an absent keyword that is the character before the last. */
  function PadBefore(text: string, word: string, start: int): Result<string>
  {
    var indx := Find(text, word, start);
    var before :- At(text, indx - 1);
    Ok(if before != ' ' then InsertText(text, indx, " ") else text)
  }

  /** One turn of `check_text_for_spaces`'s loop, for the keyword `word`. */
  function SpaceKeyword(text: string, word: string, start: int): Result<string>
  {
    var t :- PadAfter(text, word, start);
    PadBefore(t, word, start)
  }

  /** `check_text_for_spaces(text, keywords, start)`. */
  function SpaceKeywords(text: string, keywords: seq<string>, start: int): Result<string>
    decreases |keywords|
  {
    if keywords == [] then Ok(text)
    else
      var t :- SpaceKeyword(text, keywords[0], start);
      SpaceKeywords(t, keywords[1..], start)
  }

  /** The body of one turn of `check_text_for_spaces`'s loop: `_text` is
      rebound by at most two insertions around the keyword. */
  method PadKeyword(text: string, word: string, start: int) returns (r: Result<string>)
    ensures r == SpaceKeyword(text, word, start)
  {
    var t := text;
    var indx := Find(t, word, start);
    var after := At(t, indx + |word|);
    if after.Err? {
      return Err(after.error);
    }
    if after.value != ' ' {
      t := InsertText(t, indx + |word|, " ");
    }
    assert PadAfter(text, word, start) == Ok(t);
    indx := Find(t, word, start);
    var before := At(t, indx - 1);
    if before.Err? {
      return Err(before.error);
    }
    if before.value != ' ' {
      t := InsertText(t, indx, " ");
    }
    return Ok(t);
  }

  /** `check_text_for_spaces` as the loop it is, one keyword per turn. */
  method CheckTextForSpaces(text: string, keywords: seq<string>, start: int) returns (r: Result<string>)
    ensures r == SpaceKeywords(text, keywords, start)
  {
    var t := text;
    var k := 0;
    while k < |keywords|
      invariant 0 <= k <= |keywords|
      invariant SpaceKeywords(t, keywords[k..], start) == SpaceKeywords(text, keywords, start)
    {
      assert keywords[k..][0] == keywords[k] && keywords[k..][1..] == keywords[k + 1..];
      var step := PadKeyword(t, keywords[k], start);
      if step.Err? {
        return Err(step.error);
      }
      t := step.value;
      k := k + 1;
    }
    return Ok(t);
  }

  lemma InsertOneSpace(s: string, p: int)
    ensures InsertSpaces(s, [p]) == InsertText(s, p, " ")
  {
    assert [p][1..] == [];
  }

  lemma PadAfterInsertsSpace(text: string, word: string, start: int) returns (ps: seq<int>)
    requires PadAfter(text, word, start).Ok?
    ensures |ps| <= 1 && PadAfter(text, word, start).value == InsertSpaces(text, ps)
  {
    var p := Find(text, word, start) + |word|;
    if PadAfter(text, word, start).value == text {
      ps := [];
    } else {
      InsertOneSpace(text, p);
      ps := [p];
    }
  }

  lemma PadBeforeInsertsSpace(text: string, word: string, start: int) returns (ps: seq<int>)
    requires PadBefore(text, word, start).Ok?
    ensures |ps| <= 1 && PadBefore(text, word, start).value == InsertSpaces(text, ps)
  {
    var p := Find(text, word, start);
    if PadBefore(text, word, start).value == text {
      ps := [];
    } else {
      InsertOneSpace(text, p);
      ps := [p];
    }
  }

  /** One keyword's step is `InsertSpaces` at the (at most two) padded positions. */
  lemma KeywordStepInsertsSpaces(text: string, word: string, start: int) returns (ps: seq<int>)
    requires SpaceKeyword(text, word, start).Ok?
    ensures |ps| <= 2 && SpaceKeyword(text, word, start).value == InsertSpaces(text, ps)
  {
    var t := PadAfter(text, word, start).value;
    var ps1 := PadAfterInsertsSpace(text, word, start);
    var ps2 := PadBeforeInsertsSpace(t, word, start);
    assert SpaceKeyword(text, word, start).value == PadBefore(t, word, start).value;
    InsertSpacesAppend(text, ps1, ps2);
    ps := ps1 + ps2;
  }

  lemma {:induction false} SpacingIsInsertion(text: string, keywords: seq<string>, start: int) returns (ps: seq<int>)
    requires SpaceKeywords(text, keywords, start).Ok?
    ensures |ps| <= 2 * |keywords| && SpaceKeywords(text, keywords, start).value == InsertSpaces(text, ps)
    decreases |keywords|
  {
    if keywords == [] {
      ps := [];
    } else {
      var t := SpaceKeyword(text, keywords[0], start).value;
      var r := SpaceKeywords(t, keywords[1..], start).value;
      assert SpaceKeywords(text, keywords, start).value == r;
      var ps1 := KeywordStepInsertsSpaces(text, keywords[0], start);
      var ps2 := SpacingIsInsertion(t, keywords[1..], start);
      InsertSpacesAppend(text, ps1, ps2);
      ps := ps1 + ps2;
    }
  }

  /** `check_text_for_spaces` only ever inserts `' '` characters, at most two per
      keyword, and deleting them again gives back its input. */
  lemma SpacingOnlyInsertsSpaces(text: string, keywords: seq<string>, start: int)
    requires SpaceKeywords(text, keywords, start).Ok?
    ensures exists ps: seq<int> ::
              && |ps| <= 2 * |keywords|
              && SpaceKeywords(text, keywords, start).value == InsertSpaces(text, ps)
              && DeleteInserted(SpaceKeywords(text, keywords, start).value, ps) == text
  {
    var ps := SpacingIsInsertion(text, keywords, start);
    DeleteInsertedSpaces(text, ps);
  }

  /** The first occurrence of `word` at or after `start` has a space on both sides. */
  predicate Bordered(text: string, word: string, start: int)
  {
    var i := Find(text, word, start);
    1 <= i && i + |word| < |text| && text[i - 1] == ' ' && text[i + |word|] == ' '
  }

  /** Text whose keywords are already space-bordered comes back unchanged. */
  lemma {:induction false} BorderedTextUnchanged(text: string, keywords: seq<string>, start: int)
    requires forall k :: 0 <= k < |keywords| ==> Bordered(text, keywords[k], start)
    ensures SpaceKeywords(text, keywords, start) == Ok(text)
    decreases |keywords|
  {
    if keywords != [] {
      BorderedStepUnchanged(text, keywords[0], start);
      BorderedTextUnchanged(text, keywords[1..], start);
    }
  }

  /** One keyword's step leaves a bordered occurrence alone. */
  lemma BorderedStepUnchanged(text: string, word: string, start: int)
    requires Bordered(text, word, start)
    ensures SpaceKeyword(text, word, start) == Ok(text)
  {
    var i := Find(text, word, start);
    assert PadAfter(text, word, start) == Ok(text);
  }

  /** `FindFrom` is pinned down by an occurrence with none before it. */
  lemma FindFromIs(s: string, w: string, i: nat, r: nat)
    requires i <= r && OccursAt(s, w, r)
    requires forall j :: i <= j < r ==> !OccursAt(s, w, j)
    ensures FindFrom(s, w, i) == r
  {
  }

  /** Padding after an occurrence that is not at the very end leaves the
      occurrence where it was, now followed by a space. */
  lemma PadAfterKeepsOccurrence(text: string, word: string, start: int)
    requires 0 <= start
    requires 0 <= Find(text, word, start) && Find(text, word, start) + |word| < |text|
    ensures PadAfter(text, word, start).Ok?
    ensures var t, i := PadAfter(text, word, start).value, Find(text, word, start);
      Find(t, word, start) == i && i + |word| < |t| && t[i + |word|] == ' ' && t[..i] == text[..i]
  {
    var i := Find(text, word, start);
    var t := PadAfter(text, word, start).value;
    var e := i + |word|;
    if text[e] != ' ' {
      assert t == text[..e] + " " + text[e..];
    }
    assert t[..e] == text[..e] && t[e] == ' ';
    SamePrefixSameFind(text, t, word, start, i);
  }

  /** Two texts that agree up to the end of the first occurrence of `word` in
      one of them have that first occurrence in common. */
  lemma SamePrefixSameFind(text: string, t: string, word: string, start: nat, i: nat)
    requires FindFrom(text, word, start) == i
    requires i + |word| <= |text| && i + |word| <= |t|
    requires t[..i + |word|] == text[..i + |word|]
    ensures FindFrom(t, word, start) == i && t[..i] == text[..i]
  {
    var e := i + |word|;
    forall j | start <= j <= i
      ensures OccursAt(t, word, j) == OccursAt(text, word, j)
    {
      SamePrefixOccurs(text, t, word, j, e);
    }
    FindFromIs(t, word, start, i);
    ShorterPrefix(text, t, i, e);
  }

  lemma ShorterPrefix(text: string, t: string, i: nat, e: nat)
    requires i <= e <= |text| && e <= |t| && t[..e] == text[..e]
    ensures t[..i] == text[..i]
  {
    assert t[..i] == t[..e][..i] && text[..i] == text[..e][..i];
  }

  /** Whether `word` occurs at `j` depends only on the text up to `j + |word|`. */
  lemma SamePrefixOccurs(text: string, t: string, word: string, j: nat, e: nat)
    requires j + |word| <= e <= |text| && e <= |t| && t[..e] == text[..e]
    ensures OccursAt(t, word, j) == OccursAt(text, word, j)
  {
    assert t[j..j + |word|] == t[..e][j..j + |word|];
    assert text[j..j + |word|] == text[..e][j..j + |word|];
  }

  /** A space inserted just before the first occurrence of a space-free
      keyword moves that occurrence one place right and creates none earlier. */
  lemma SpaceBeforeShifts(t: string, word: string, start: nat, i: nat)
    requires |word| > 0 && ' ' !in word
    requires start <= i && FindFrom(t, word, start) == i
    ensures FindFrom(t[..i] + " " + t[i..], word, start) == i + 1
  {
    var u := t[..i] + " " + t[i..];
    assert OccursAt(t, word, i);
    assert u[i + 1..i + 1 + |word|] == t[i..i + |word|];
    assert u[..i] == t[..i] && u[i] == ' ';
    forall j | start <= j < i + 1
      ensures !OccursAt(u, word, j)
    {
      if j + |word| <= i {
        assert !OccursAt(t, word, j);
        assert u[j..j + |word|] == u[..i][j..j + |word|];
        assert t[j..j + |word|] == t[..i][j..j + |word|];
      } else {
        SpaceBlocks(u, word, j, i);
      }
    }
    FindFromIs(u, word, start, i + 1);
  }

  /** A space-free word does not occur across a space. */
  lemma SpaceBlocks(u: string, word: string, j: nat, i: nat)
    requires ' ' !in word && j <= i < j + |word| && i < |u| && u[i] == ' '
    ensures !OccursAt(u, word, j)
  {
    if j + |word| <= |u| {
      assert u[j..j + |word|][i - j] == ' ';
      assert word[i - j] in word;
      assert u[j..j + |word|][i - j] != word[i - j];
    }
  }

  /** Padding before an occurrence found at `i >= 1` inserts a space there
      unless one is already in place. */
  lemma PadBeforeAt(t: string, word: string, start: nat, i: nat)
    requires Find(t, word, start) == i && 1 <= i <= |t|
    ensures PadBefore(t, word, start) == Ok(if t[i - 1] != ' ' then InsertText(t, i, " ") else t)
  {
    assert At(t, i - 1) == Ok(t[i - 1]);
  }

  /** Padding before an occurrence of a space-free keyword that already has a
      space after it leaves it bordered by spaces. */
  lemma PadBeforeBorders(t: string, word: string, start: int)
    requires 0 <= start && |word| > 0 && ' ' !in word
    requires 1 <= Find(t, word, start) && Find(t, word, start) + |word| < |t|
    requires t[Find(t, word, start) + |word|] == ' '
    ensures PadBefore(t, word, start).Ok?
    ensures Bordered(PadBefore(t, word, start).value, word, start)
  {
    var i := FindFrom(t, word, start);
    PadBeforeAt(t, word, start, i);
    if t[i - 1] != ' ' {
      PaddedBefore(t, word, start, i);
    }
  }

  /** The inserted space borders the occurrence, which moves one place right. */
  lemma PaddedBefore(t: string, word: string, start: nat, i: nat)
    requires |word| > 0 && ' ' !in word
    requires start <= i && FindFrom(t, word, start) == i
    requires 1 <= i && i + |word| < |t| && t[i + |word|] == ' '
    ensures Bordered(InsertText(t, i, " "), word, start)
  {
    var u := InsertText(t, i, " ");
    assert u == t[..i] + " " + t[i..];
    SpaceBeforeShifts(t, word, start, i);
    assert u[i] == ' ' && u[i + 1 + |word|] == t[i + |word|];
  }

  /** After one keyword's step, the first occurrence of a space-free keyword,
      found at or after a non-negative `start` and neither at index 0 nor at
      the very end, has a space on both sides. */
  lemma KeywordStepBorders(text: string, word: string, start: int)
    requires 0 <= start && |word| > 0 && ' ' !in word
    requires 1 <= Find(text, word, start) && Find(text, word, start) + |word| < |text|
    ensures SpaceKeyword(text, word, start).Ok?
    ensures Bordered(SpaceKeyword(text, word, start).value, word, start)
  {
    PadAfterKeepsOccurrence(text, word, start);
    PadBeforeBorders(PadAfter(text, word, start).value, word, start);
  }

  /** A keyword that does not occur still changes the text: the code pads the
      character at index `len(word) - 1` and the one before the last. */
  lemma AbsentKeywordPadsText()
    ensures SpaceKeywords("abc", ["DR"], 0) == Ok("a b c")
  {
    FirstCharAbsent("abc", "DR");
    assert InsertText("abc", 1, " ") == "a bc";
    FirstCharAbsent("a bc", "DR");
    assert InsertText("a bc", -1, " ") == "a b c";
  }

  // ---------------------------------------------------------------- format_creature_entry

  /** The text with every whitespace character removed: what the spacing
      passes and the whitespace collapse must leave alone. */
  function Squash(s: string): string
  {
    if s == [] then [] else (if IsSpace(s[0]) then [] else [s[0]]) + Squash(s[1..])
  }

  lemma {:induction false} SquashAppend(a: string, b: string)
    ensures Squash(a + b) == Squash(a) + Squash(b)
  {
    if a != [] {
      assert (a + b)[1..] == a[1..] + b;
      SquashAppend(a[1..], b);
    } else {
      assert a + b == b;
    }
  }

  /** One inserted space leaves the squashed text alone. */
  lemma SquashInsertSpace(s: string, q: int)
    ensures Squash(InsertText(s, q, " ")) == Squash(s)
  {
    var p := SliceIndex(q, |s|);
    assert InsertText(s, q, " ") == s[..p] + " " + s[p..];
    SquashAppend(s[..p] + " ", s[p..]);
    SquashAppend(s[..p], " ");
    SquashAppend(s[..p], s[p..]);
    assert s[..p] + s[p..] == s;
  }

  lemma {:induction false} SquashInsertSpaces(s: string, ps: seq<int>)
    ensures Squash(InsertSpaces(s, ps)) == Squash(s)
    decreases |ps|
  {
    if ps != [] {
      SquashInsertSpace(s, ps[0]);
      SquashInsertSpaces(InsertText(s, ps[0], " "), ps[1..]);
    }
  }

  lemma {:induction false} SquashLStrip(s: string)
    ensures Squash(LStrip(s)) == Squash(s)
    decreases |s|
  {
    if s != [] && IsSpace(s[0]) {
      SquashLStrip(s[1..]);
    }
  }

  lemma {:induction false} SquashCollapse(s: string)
    ensures Squash(CollapseSpaces(s)) == Squash(s)
    decreases |s|
  {
    if s != [] {
      if IsSpace(s[0]) {
        var t := LStrip(s[1..]);
        SquashLStrip(s[1..]);
        SquashCollapse(t);
        SquashAppend(" ", CollapseSpaces(t));
      } else {
        SquashCollapse(s[1..]);
        SquashAppend([s[0]], CollapseSpaces(s[1..]));
      }
    }
  }

  /** Every comma is followed by whitespace. */
  predicate CommasSpaced(s: string)
  {
    forall i :: 0 <= i < |s| && s[i] == ',' ==> i + 1 < |s| && IsSpace(s[i + 1])
  }

  /** Every left parenthesis after the first character follows whitespace. */
  predicate ParensTail(s: string)
  {
    forall i :: 1 <= i < |s| && s[i] == '(' ==> IsSpace(s[i - 1])
  }

  /** Every left parenthesis follows whitespace. */
  predicate ParensSpaced(s: string)
  {
    ParensTail(s) && (s == [] || s[0] != '(')
  }

  lemma ReplaceOneChar(s: string, c: char, rep: string)
    requires s != []
    ensures ReplaceAll(s, [c], rep) == (if s[0] == c then rep else [s[0]]) + ReplaceAll(s[1..], [c], rep)
  {
    assert s[..1] == [s[0]];
  }

  lemma {:induction false} ReplaceCommasSpaces(s: string)
    ensures CommasSpaced(ReplaceAll(s, ",", ", "))
    decreases |s|
  {
    if s != [] {
      ReplaceOneChar(s, ',', ", ");
      ReplaceCommasSpaces(s[1..]);
    }
  }

  lemma {:induction false} ReplaceParensSpaces(s: string)
    ensures ParensSpaced(ReplaceAll(s, "(", " ("))
    decreases |s|
  {
    if s != [] {
      ReplaceOneChar(s, '(', " (");
      ReplaceParensSpaces(s[1..]);
    }
  }

  lemma {:induction false} ReplaceParensKeepsCommas(s: string)
    requires CommasSpaced(s)
    ensures CommasSpaced(ReplaceAll(s, "(", " ("))
    decreases |s|
  {
    if s != [] {
      ReplaceOneChar(s, '(', " (");
      assert CommasSpaced(s[1..]);
      ReplaceParensKeepsCommas(s[1..]);
      if s[0] == ',' {
        ReplaceOneChar(s[1..], '(', " (");
      }
    }
  }

  lemma InsertSpaceKeepsSpacing(s: string, p: int)
    ensures CommasSpaced(s) ==> CommasSpaced(InsertText(s, p, " "))
    ensures ParensSpaced(s) ==> ParensSpaced(InsertText(s, p, " "))
  {
    var q := SliceIndex(p, |s|);
    var r := InsertText(s, p, " ");
    assert r == s[..q] + " " + s[q..];
    SpaceInserted(s, q, r);
  }

  /** A text with a space inserted at `q`, character by character. */
  lemma SpaceInserted(s: string, q: nat, r: string)
    requires q <= |s| && r == s[..q] + " " + s[q..]
    ensures CommasSpaced(s) ==> CommasSpaced(r)
    ensures ParensSpaced(s) ==> ParensSpaced(r)
  {
    assert |r| == |s| + 1 && r[q] == ' ';
    assert forall i :: 0 <= i < q ==> r[i] == s[i];
    assert forall i :: q < i < |r| ==> r[i] == s[i - 1];
    if CommasSpaced(s) {
      forall i | 0 <= i < |r| && r[i] == ','
        ensures i + 1 < |r| && IsSpace(r[i + 1])
      {
        if i < q {
          assert s[i] == ',';
        } else {
          assert s[i - 1] == ',';
        }
      }
    }
    if ParensSpaced(s) {
      forall i | 1 <= i < |r| && r[i] == '('
        ensures IsSpace(r[i - 1])
      {
        if i < q {
          assert s[i] == '(';
        } else if i > q {
          assert s[i - 1] == '(';
        }
      }
    }
  }

  lemma {:induction false} InsertSpacesKeepsSpacing(s: string, ps: seq<int>)
    ensures CommasSpaced(s) ==> CommasSpaced(InsertSpaces(s, ps))
    ensures ParensSpaced(s) ==> ParensSpaced(InsertSpaces(s, ps))
    decreases |ps|
  {
    if ps != [] {
      InsertSpaceKeepsSpacing(s, ps[0]);
      InsertSpacesKeepsSpacing(InsertText(s, ps[0], " "), ps[1..]);
    }
  }

  /** A suffix of a text keeps its comma and parenthesis spacing. */
  lemma SuffixKeepsSpacing(s: string, k: nat)
    requires k <= |s|
    ensures CommasSpaced(s) ==> CommasSpaced(s[k..])
    ensures ParensTail(s) ==> ParensTail(s[k..])
  {
    assert forall i :: 0 <= i < |s| - k ==> s[k..][i] == s[k + i];
  }

  lemma {:induction false} CollapseKeepsCommas(s: string)
    requires CommasSpaced(s)
    ensures CommasSpaced(CollapseSpaces(s))
    decreases |s|
  {
    if s != [] {
      if IsSpace(s[0]) {
        var t := LStrip(s[1..]);
        LStripSuffix(s[1..]);
        SuffixKeepsSpacing(s, |s| - |t|);
        CollapseKeepsCommas(t);
      } else {
        assert CommasSpaced(s[1..]);
        CollapseKeepsCommas(s[1..]);
      }
    }
  }

  lemma {:induction false} CollapseKeepsParensTail(s: string)
    requires ParensTail(s)
    ensures ParensTail(CollapseSpaces(s))
    decreases |s|
  {
    if s != [] {
      if IsSpace(s[0]) {
        var t := LStrip(s[1..]);
        LStripSuffix(s[1..]);
        SuffixKeepsSpacing(s, |s| - |t|);
        CollapseKeepsParensTail(t);
      } else {
        assert ParensTail(s[1..]);
        CollapseKeepsParensTail(s[1..]);
      }
    }
  }

  /** The replacements of `format_creature_entry`, before any spacing pass:
      U+00E2 becomes '-', non-ASCII characters are dropped, '*' is removed,
      "flatfooted" and "Reflex" are respelled, and commas and left
      parentheses get a space after and before them. */
  function Massage(entry: string): string
  {
    var e1 := AsciiOnly(ReplaceAll(entry, "â", "-"));
    var e2 := ReplaceAll(e1, "*", "");
    var e3 := ReplaceAll(e2, "flatfooted", "flat-footed");
    var e4 := ReplaceAll(e3, "Reflex", "Ref");
    var e5 := ReplaceAll(e4, ",", ", ");
    ReplaceAll(e5, "(", " (")
  }

  /** `format_creature_entry`: the replacements, the two keyword spacing
      passes (the second starting at "STATISTICS", or at the last character
      when it is absent, since `find` gives -1) and the whitespace collapse. */
  function FormatEntry(entry: string): Result<string>
  {
    var e := Massage(entry);
    var e7 :- SpaceKeywords(e, ATTRIBUTES, 0);
    var e8 :- SpaceKeywords(e7, ABILITIES, Find(e7, "STATISTICS", 0));
    Ok(CollapseSpaces(e8))
  }

  lemma MassageSpacing(entry: string)
    ensures var m := Massage(entry);
      && (forall i :: 0 <= i < |m| ==> m[i] as int < 128)
      && '*' !in m && CommasSpaced(m) && ParensSpaced(m)
  {
    var e1 := AsciiOnly(ReplaceAll(entry, "â", "-"));
    var e2 := ReplaceAll(e1, "*", "");
    var e3 := ReplaceAll(e2, "flatfooted", "flat-footed");
    var e4 := ReplaceAll(e3, "Reflex", "Ref");
    MassagePlain(e1);
    MassageSpaced(e4);
    var m := Massage(entry);
    assert m == ReplaceAll(ReplaceAll(e4, ",", ", "), "(", " (");
    assert forall i :: 0 <= i < |m| ==> m[i] as int < 128 && m[i] != '*';
  }

  /** The last five replacements keep ASCII text ASCII and free of '*'. */
  lemma MassagePlain(e1: string)
    requires forall i :: 0 <= i < |e1| ==> e1[i] as int < 128
    ensures var e4 := ReplaceAll(ReplaceAll(ReplaceAll(e1, "*", ""), "flatfooted", "flat-footed"), "Reflex", "Ref");
      PlainText(ReplaceAll(ReplaceAll(e4, ",", ", "), "(", " ("))
  {
    var e2 := ReplaceAll(e1, "*", "");
    StarRemovedPlain(e1);
    PlainReplacements();
    var e3 := ReplaceAll(e2, "flatfooted", "flat-footed");
    ReplacePlain(e2, "flatfooted", "flat-footed");
    var e4 := ReplaceAll(e3, "Reflex", "Ref");
    ReplacePlain(e3, "Reflex", "Ref");
    var e5 := ReplaceAll(e4, ",", ", ");
    ReplacePlain(e4, ",", ", ");
    ReplacePlain(e5, "(", " (");
  }

  /** The comma and parenthesis replacements space both marks. */
  lemma MassageSpaced(e4: string)
    ensures var m := ReplaceAll(ReplaceAll(e4, ",", ", "), "(", " (");
      CommasSpaced(m) && ParensSpaced(m)
  {
    var e5 := ReplaceAll(e4, ",", ", ");
    ReplaceCommasSpaces(e4);
    ReplaceParensKeepsCommas(e5);
    ReplaceParensSpaces(e5);
  }

  /** ASCII text without '*'. */
  predicate PlainText(s: string)
  {
    forall i :: 0 <= i < |s| ==> s[i] as int < 128 && s[i] != '*'
  }

  lemma PlainReplacements()
    ensures PlainText("flat-footed") && PlainText("Ref") && PlainText(", ") && PlainText(" (")
  {
  }

  /** Removing '*' from ASCII text gives plain text. */
  lemma StarRemovedPlain(s: string)
    requires forall i :: 0 <= i < |s| ==> s[i] as int < 128
    ensures PlainText(ReplaceAll(s, "*", ""))
  {
    var r := ReplaceAll(s, "*", "");
    ReplaceRemovesChar(s, '*');
    forall i | 0 <= i < |r|
      ensures r[i] as int < 128 && r[i] != '*'
    {
      assert r[i] in r;
      var j :| 0 <= j < |s| && s[j] == r[i];
    }
  }

  /** Replacing in plain text with plain text gives plain text. */
  lemma ReplacePlain(s: string, pat: string, rep: string)
    requires |pat| > 0 && PlainText(s) && PlainText(rep)
    ensures PlainText(ReplaceAll(s, pat, rep))
  {
    var r := ReplaceAll(s, pat, rep);
    forall i | 0 <= i < |r|
      ensures r[i] as int < 128 && r[i] != '*'
    {
      assert r[i] in r;
      if r[i] in s {
        var j :| 0 <= j < |s| && s[j] == r[i];
      } else {
        var j :| 0 <= j < |rep| && rep[j] == r[i];
      }
    }
  }

  /** What a formatted entry looks like: ASCII only, no '*', every run of
      whitespace a single ' ', every comma followed by a space, every left
      parenthesis preceded by one, and, spaces aside, the same characters as
      the replaced text. */
  lemma FormatEntryNormalForm(entry: string)
    requires FormatEntry(entry).Ok?
    ensures var r := FormatEntry(entry).value;
      && (forall i :: 0 <= i < |r| ==> r[i] as int < 128)
      && '*' !in r
      && (forall i :: 0 <= i < |r| && IsSpace(r[i]) ==> r[i] == ' ')
      && SingleSpaced(r)
      && CommasSpaced(r) && ParensSpaced(r)
      && Squash(r) == Squash(Massage(entry))
  {
    var m := Massage(entry);
    MassageSpacing(entry);
    var e7 := SpaceKeywords(m, ATTRIBUTES, 0).value;
    var e8 := SpaceKeywords(e7, ABILITIES, Find(e7, "STATISTICS", 0)).value;
    var r := CollapseSpaces(e8);
    var ps := SpacingIsInsertion(m, ATTRIBUTES, 0);
    var qs := SpacingIsInsertion(e7, ABILITIES, Find(e7, "STATISTICS", 0));
    InsertSpacesKeepsSpacing(m, ps);
    InsertSpacesKeepsSpacing(e7, qs);
    CollapseKeepsCommas(e8);
    CollapseKeepsParensTail(e8);
    SquashInsertSpaces(m, ps);
    SquashInsertSpaces(e7, qs);
    SquashCollapse(e8);
    CollapseKeepsChars(e8);
    assert forall c :: c in r ==> c in m || c == ' ';
    AsciiKept(m, r);
  }

  /** Text made of the characters of ASCII text and spaces is ASCII. */
  lemma AsciiKept(m: string, r: string)
    requires forall i :: 0 <= i < |m| ==> m[i] as int < 128
    requires forall c :: c in r ==> c in m || c == ' '
    ensures forall i :: 0 <= i < |r| ==> r[i] as int < 128
  {
    forall i | 0 <= i < |r|
      ensures r[i] as int < 128
    {
      assert r[i] in r;
      if r[i] in m {
        var j :| 0 <= j < |m| && m[j] == r[i];
      }
    }
  }

  /** One left-to-right pass of `replace('Reflex', 'Ref')` can itself spell a
      new "Reflex", so the formatted entry is not free of that word. */
  lemma ReflexRewriteCanSpellReflex()
    ensures ReplaceAll("RefReflexlex", "Reflex", "Ref") == "RefReflex"
    ensures Contains("RefReflex", "Reflex")
  {
    var s := "RefReflexlex";
    assert s[..6][3] != "Reflex"[3];
    assert s[1..][..6][0] != 'R';
    assert s[2..][..6][0] != 'R';
    assert s[3..][..6] == "Reflex";
    assert s[3..][6..] == "lex";
    assert OccursAt("RefReflex", "Reflex", 3);
  }

  // ---------------------------------------------------------------- format_creature_name

  /** `str.capitalize()`: the first character upper case, the rest lower case. */
  function Capitalize(w: string): (r: string)
    ensures |r| == |w|
  {
    if w == [] then [] else [Upper(w[0])] + LowerStr(w[1..])
  }

  function CapitalizeAll(ws: seq<string>): (r: seq<string>)
    ensures |r| == |ws|
  {
    if ws == [] then [] else [Capitalize(ws[0])] + CapitalizeAll(ws[1..])
  }

  /** `string.capwords(s, ' ')`: split on single spaces, capitalize each piece, re-join. */
  function CapWords(s: string): string
  {
    Join(" ", CapitalizeAll(Split(s, " ")))
  }

  /** Whether position `k` of `s` starts a space-separated word. */
  predicate WordStart(s: string, k: int)
  {
    k == 0 || (1 <= k <= |s| && s[k - 1] == ' ')
  }

  /** `r` is `s` with each word's first character upper-cased and every other
      character lower-cased. */
  predicate CapitalizedWords(s: string, r: string)
  {
    |r| == |s| && forall k :: 0 <= k < |s| ==> r[k] == if WordStart(s, k) then Upper(s[k]) else Lower(s[k])
  }

  lemma CapitalizeSpaceFree(w: string)
    requires forall j :: 0 <= j < |w| ==> w[j] != ' '
    ensures CapitalizedWords(w, Capitalize(w))
  {
  }

  lemma CapitalizedWordsCons(w: string, rest: string, r: string)
    requires forall j :: 0 <= j < |w| ==> w[j] != ' '
    requires CapitalizedWords(rest, r)
    ensures CapitalizedWords(w + " " + rest, Capitalize(w) + " " + r)
  {
    var s, t := w + " " + rest, Capitalize(w) + " " + r;
    CapitalizeSpaceFree(w);
    forall k | 0 <= k < |s|
      ensures t[k] == if WordStart(s, k) then Upper(s[k]) else Lower(s[k])
    {
      if k < |w| {
        assert s[k] == w[k] && t[k] == Capitalize(w)[k];
        assert WordStart(s, k) == WordStart(w, k);
      } else if k > |w| {
        assert s[k] == rest[k - |w| - 1] && t[k] == r[k - |w| - 1];
        assert WordStart(s, k) == WordStart(rest, k - |w| - 1);
      }
    }
  }

  /** Splitting at the first space: capwords of the head, a space, capwords of the rest. */
  lemma CapWordsAtFirstSpace(s: string, i: nat)
    requires FindFrom(s, " ", 0) == i
    ensures CapWords(s) == Capitalize(s[..i]) + " " + CapWords(s[i + 1..])
  {
    var head, rest := s[..i], s[i + 1..];
    var pieces := Split(rest, " ");
    assert Split(s, " ") == [head] + pieces;
    assert CapitalizeAll([head] + pieces) == [Capitalize(head)] + CapitalizeAll(pieces);
    var caps := CapitalizeAll(pieces);
    assert ([Capitalize(head)] + caps)[1..] == caps;
  }

  /** `capwords` character by character: the first character of each
      space-separated word is upper-cased, every other character lower-cased,
      and nothing moves. */
  lemma {:induction false} CapWordsPointwise(s: string)
    ensures CapitalizedWords(s, CapWords(s))
    decreases |s|
  {
    var i := FindFrom(s, " ", 0);
    if i < 0 {
      CapWordsNoSpace(s);
    } else {
      CapWordsAtFirstSpace(s, i);
      CapWordsPointwise(s[i + 1..]);
      FirstSpaceSplits(s, i);
      CapitalizedWordsCons(s[..i], s[i + 1..], CapWords(s[i + 1..]));
    }
  }

  /** A text without a space is one word. */
  lemma CapWordsNoSpace(s: string)
    requires FindFrom(s, " ", 0) < 0
    ensures CapitalizedWords(s, CapWords(s))
  {
    assert Split(s, " ") == [s];
    assert CapWords(s) == Capitalize(s);
    forall j | 0 <= j < |s|
      ensures s[j] != ' '
    {
      assert !OccursAt(s, " ", j);
      assert s[j..j + 1][0] == s[j];
    }
    CapitalizeSpaceFree(s);
  }

  /** The first space at `i` splits the text into a space-free head, the
      space and the rest. */
  lemma FirstSpaceSplits(s: string, i: nat)
    requires FindFrom(s, " ", 0) == i
    ensures i < |s| && s == s[..i] + " " + s[i + 1..]
    ensures forall j :: 0 <= j < |s[..i]| ==> s[..i][j] != ' '
  {
    forall j | 0 <= j < i
      ensures s[..i][j] != ' '
    {
      assert !OccursAt(s, " ", j);
      assert s[j..j + 1][0] == s[j];
    }
    assert OccursAt(s, " ", i);
    assert s[i..i + 1] == " ";
  }

  /** Upper-cases the character after the first `c` (the first character when
      there is none); `IndexError` when that position is past the end. */
  function UpperAfterFirst(s: string, c: char): (r: Result<string>)
    ensures r.Ok? <==> Find(s, [c], 0) + 1 < |s|
    ensures r.Ok? ==> |r.value| == |s| && forall k :: 0 <= k < |s| ==>
      r.value[k] == if k == Find(s, [c], 0) + 1 then Upper(s[k]) else s[k]
  {
    var i := Find(s, [c], 0) + 1;
    var ch :- At(s, i);
    Ok(s[..i] + [Upper(ch)] + s[i + 1..])
  }

  /** The last two steps of `format_creature_name`: upper-case the character
      after the first '-', then the one after the first '('. */
  function CapitalizeMarks(n: string): Result<string>
  {
    var n2 :- UpperAfterFirst(n, '-');
    UpperAfterFirst(n2, '(')
  }

  /** `format_creature_name`. */
  function FormatName(name: string): Result<string>
  {
    CapitalizeMarks(CapWords(LowerStr(AsciiOnly(name))))
  }

  /** Two strings that agree on where `c` is have the same first `c`. */
  lemma {:induction false} FindCharAgrees(s: string, t: string, c: char, i: nat)
    requires |s| == |t|
    requires forall k :: 0 <= k < |s| ==> (s[k] == c <==> t[k] == c)
    ensures FindFrom(s, [c], i) == FindFrom(t, [c], i)
    decreases |s| - i
  {
    if i + 1 <= |s| {
      assert s[i..i + 1] == [s[i]] && t[i..i + 1] == [t[i]];
      FindCharAgrees(s, t, c, i + 1);
    }
  }

  lemma CapWordsOfLower(a: string)
    ensures CapitalizedWords(a, CapWords(LowerStr(a)))
  {
    var l := LowerStr(a);
    var c := CapWords(l);
    CapWordsPointwise(l);
    forall k | 0 <= k < |a|
      ensures c[k] == if WordStart(a, k) then Upper(a[k]) else Lower(a[k])
    {
      assert c[k] == if WordStart(l, k) then Upper(l[k]) else Lower(l[k]);
      assert l[k] == Lower(a[k]);
      if 1 <= k {
        assert l[k - 1] == Lower(a[k - 1]);
      }
      assert WordStart(l, k) == WordStart(a, k);
    }
  }

  /** Upper- and lower-casing leave '-' and '(' where they are. */
  lemma CaseKeepsMarks(a: string, r: string)
    requires |r| == |a|
    requires forall k :: 0 <= k < |a| ==> r[k] == Upper(a[k]) || r[k] == Lower(a[k])
    ensures FindFrom(a, "-", 0) == FindFrom(r, "-", 0)
    ensures FindFrom(a, "(", 0) == FindFrom(r, "(", 0)
  {
    FindCharAgrees(a, r, '-', 0);
    FindCharAgrees(a, r, '(', 0);
  }

  /** Where a formatted name is upper case: at the start of each word, after the
      first '-' and after the first '('. */
  predicate NameCapital(a: string, k: int)
  {
    WordStart(a, k) || k == Find(a, "-", 0) + 1 || k == Find(a, "(", 0) + 1
  }

  /** `r` is the name `a` with upper case exactly where `NameCapital` says. */
  predicate NameCased(a: string, r: string)
  {
    |r| == |a| && forall k :: 0 <= k < |a| ==> r[k] == if NameCapital(a, k) then Upper(a[k]) else Lower(a[k])
  }

  lemma LowerOfCased(a: string, r: string)
    requires |r| == |a|
    requires forall k :: 0 <= k < |a| ==> r[k] == Upper(a[k]) || r[k] == Lower(a[k])
    ensures LowerStr(r) == LowerStr(a)
  {
  }

  lemma CaseIdempotent(c: char)
    ensures Upper(Upper(c)) == Upper(c) && Upper(Lower(c)) == Upper(c)
    ensures Lower(Upper(c)) == Lower(c) && Lower(Lower(c)) == Lower(c)
  {
  }

  /** The two upper-casing steps after capwords give the casing `NameCased` describes. */
  lemma NameCasedSteps(a: string, n: string, n2: string, r: string)
    requires CapitalizedWords(a, n)
    requires |n2| == |n| && forall k :: 0 <= k < |n| ==> n2[k] == if k == Find(a, "-", 0) + 1 then Upper(n[k]) else n[k]
    requires |r| == |n2| && forall k :: 0 <= k < |n2| ==> r[k] == if k == Find(a, "(", 0) + 1 then Upper(n2[k]) else n2[k]
    ensures NameCased(a, r)
  {
    forall k | 0 <= k < |a|
      ensures r[k] == if NameCapital(a, k) then Upper(a[k]) else Lower(a[k])
    {
      CaseIdempotent(a[k]);
    }
  }

  /** The name after `capwords`, with the positions of its first '-' and '('
      those of the ASCII name. */
  lemma CapWordsStep(a: string)
    ensures CapitalizedWords(a, CapWords(LowerStr(a)))
    ensures Find(CapWords(LowerStr(a)), "-", 0) == Find(a, "-", 0)
  {
    CapWordsOfLower(a);
    CaseKeepsMarks(a, CapWords(LowerStr(a)));
  }

  lemma CapitalizeMarksOk(a: string, n: string)
    requires CapitalizedWords(a, n)
    ensures CapitalizeMarks(n).Ok? <==> Find(a, "-", 0) + 1 < |a| && Find(a, "(", 0) + 1 < |a|
  {
    CapitalizedRecased(a, n);
    CaseKeepsMarks(a, n);
    if Find(a, "-", 0) + 1 < |a| {
      UpperAfterKeepsCase(a, n, '-');
      CaseKeepsMarks(a, UpperAfterFirst(n, '-').value);
    }
  }

  /** Each character of a capwords result is its source character in upper or lower case. */
  lemma CapitalizedRecased(a: string, n: string)
    requires CapitalizedWords(a, n)
    ensures |n| == |a| && forall k :: 0 <= k < |a| ==> n[k] == Upper(a[k]) || n[k] == Lower(a[k])
  {
  }

  lemma CapitalizeMarksCasing(a: string, n: string)
    requires CapitalizedWords(a, n)
    requires CapitalizeMarks(n).Ok?
    ensures NameCased(a, CapitalizeMarks(n).value)
    ensures LowerStr(CapitalizeMarks(n).value) == LowerStr(a)
  {
    CaseKeepsMarks(a, n);
    assert forall k :: 0 <= k < |a| ==> n[k] == Upper(a[k]) || n[k] == Lower(a[k]);
    var n2 := UpperAfterFirst(n, '-').value;
    UpperAfterKeepsCase(a, n, '-');
    CaseKeepsMarks(a, n2);
    var r := UpperAfterFirst(n2, '(').value;
    UpperAfterKeepsCase(a, n2, '(');
    NameCasedSteps(a, n, n2, r);
    LowerOfCased(a, r);
  }

  /** Upper-casing one character of a re-cased name leaves a re-cased name. */
  lemma UpperAfterKeepsCase(a: string, n: string, c: char)
    requires |n| == |a| && forall k :: 0 <= k < |a| ==> n[k] == Upper(a[k]) || n[k] == Lower(a[k])
    requires UpperAfterFirst(n, c).Ok?
    ensures var m := UpperAfterFirst(n, c).value;
      |m| == |a| && forall k :: 0 <= k < |a| ==> m[k] == Upper(a[k]) || m[k] == Lower(a[k])
  {
    forall k | 0 <= k < |a|
    {
      CaseIdempotent(a[k]);
    }
  }

  /** `format_creature_name` succeeds exactly when the ASCII name has a
      character after its first '-' and after its first '(' (for an absent one,
      a first character at all). */
  lemma FormatNameOk(name: string)
    ensures var a := AsciiOnly(name);
      FormatName(name).Ok? <==> Find(a, "-", 0) + 1 < |a| && Find(a, "(", 0) + 1 < |a|
  {
    var a := AsciiOnly(name);
    CapWordsOfLower(a);
    CapitalizeMarksOk(a, CapWords(LowerStr(a)));
  }

  /** Name formatting fails only by indexing past the end: `IndexError`. */
  lemma FormatNameErrors(name: string)
    ensures FormatName(name).Err? ==> FormatName(name).error == IndexError
  {
  }

  /** A formatted name has the ASCII name's length, lower-cases to the
      lower-cased ASCII name, and is upper case exactly at word starts and
      after the first '-' and '('. */
  lemma FormatNameCasing(name: string)
    requires FormatName(name).Ok?
    ensures NameCased(AsciiOnly(name), FormatName(name).value)
    ensures LowerStr(FormatName(name).value) == LowerStr(AsciiOnly(name))
  {
    var a := AsciiOnly(name);
    CapWordsOfLower(a);
    CapitalizeMarksCasing(a, CapWords(LowerStr(a)));
  }

  // ---------------------------------------------------------------- get_cr_and_mr_from_text

  function DigitValue(c: char): nat
    requires IsDigit(c)
  {
    c as int - '0' as int
  }

  /** The value of `cr_text` after the fraction branch: `str(float(x) / float(y))`
      cut to four characters. For one-digit operands the quotient is below 10,
      its decimal expansion has no run of nines for rounding to carry through,
      and Python prints an integral value as "n.0", so the four characters are
      the integer digit, '.', and the first one or two fraction digits (one
      when the expansion stops there). */
  function QuotientText(x: nat, y: nat): string
    requires x < 10 && 0 < y < 10
  {
    var q, r := x / y, x % y;
    var d1, r1 := 10 * r / y, 10 * r % y;
    var d2, r2 := 10 * r1 / y, 10 * r1 % y;
    [DigitChar(q), '.'] + (if r == 0 then "0" else if d2 == 0 && r2 == 0 then [DigitChar(d1)] else [DigitChar(d1), DigitChar(d2)])
  }

  /** The value, in hundredths, that a "d.d" or "d.dd" text stands for. */
  function Hundredths(t: string): nat
    requires (|t| == 3 || |t| == 4) && IsDigit(t[0]) && t[1] == '.' && IsDigit(t[2])
    requires |t| == 4 ==> IsDigit(t[3])
  {
    100 * DigitValue(t[0]) + 10 * DigitValue(t[2]) + (if |t| == 4 then DigitValue(t[3]) else 0)
  }

  lemma DigitCharValue(d: nat)
    requires d < 10
    ensures IsDigit(DigitChar(d)) && DigitValue(DigitChar(d)) == d
  {
  }

  /** One long-division step: a dividend below ten times `y` gives one digit. */
  lemma DivisionDigit(n: nat, y: nat) returns (d: nat, r: nat)
    requires 0 < y < 10 && n < 10 * y
    ensures d == n / y && r == n % y
    ensures d < 10 && r < y && n == d * y + r
  {
    d, r := n / y, n % y;
  }

  lemma LongDivision(x: int, y: int, q: int, r: int, d1: int, r1: int, d2: int, r2: int)
    requires x == q * y + r && 10 * r == d1 * y + r1 && 10 * r1 == d2 * y + r2
    ensures 100 * x == (100 * q + 10 * d1 + d2) * y + r2
  {
    calc {
      (100 * q + 10 * d1 + d2) * y;
      100 * (q * y) + 10 * (d1 * y) + d2 * y;
    }
  }

  /** A fractional rating is the quotient truncated to hundredths, in at most
      four characters. */
  lemma QuotientTextTruncates(x: nat, y: nat)
    requires x < 10 && 0 < y < 10
    ensures var t := QuotientText(x, y);
      && 3 <= |t| <= 4 && IsDigit(t[0]) && t[1] == '.' && IsDigit(t[2]) && (|t| == 4 ==> IsDigit(t[3]))
      && Hundredths(t) * y <= 100 * x < (Hundredths(t) + 1) * y
  {
    var q, r := DivisionDigit(x, y);
    var d1, r1 := DivisionDigit(10 * r, y);
    var d2, r2 := DivisionDigit(10 * r1, y);
    LongDivision(x, y, q, r, d1, r1, d2, r2);
    DigitCharValue(q);
    DigitCharValue(d1);
    DigitCharValue(d2);
    DigitCharValue(0);
    var t := QuotientText(x, y);
    assert Hundredths(t) == 100 * q + 10 * d1 + d2;
    assert (Hundredths(t) + 1) * y == Hundredths(t) * y + y;
  }

  /** `float(cr_text[0]) / float(cr_text[2])` and the cut to four characters:
      `cr_text[0]` is read and converted first, so a non-digit there is a
      `ValueError` even when `cr_text[2]` does not exist. */
  function FractionRating(w: string): Result<string>
  {
    var a :- At(w, 0);
    if !IsDigit(a) then Err(ValueError)
    else
      var b :- At(w, 2);
      if !IsDigit(b) then Err(ValueError)
      else if b == '0' then Err(ZeroDivisionError)
      else Ok(QuotientText(DigitValue(a), DigitValue(b)))
  }

  /** The rating text after its normalisation: a space goes in at index 2 unless
      the text starts with "CR ", then every '*' is removed. */
  function RatingText(text: string): string
  {
    var t := if Slice(text, 0, 3) != "CR " then InsertText(text, 2, " ") else text;
    ReplaceAll(t, "*", "")
  }

  /** `get_cr_and_mr_from_text`: the pair (challenge rating, mythic rank). */
  function CrAndMr(text: string): Result<(string, string)>
  {
    var t := RatingText(text);
    if Contains(t, "MR") then
      var ranks := Split(t, "/M");
      var cr :- At(Split(ranks[0], " "), 1);
      var rank :- At(ranks, 1);
      var mr :- At(Split(rank, " "), 1);
      Ok((cr, mr))
    else
      var w :- At(Split(t, " "), 1);
      if '/' in w then
        var q :- FractionRating(w);
        Ok((q, "0"))
      else
        Ok((w, "0"))
  }

  lemma {:induction false} ReplaceAbsentChar(s: string, c: char, rep: string)
    requires c !in s
    ensures ReplaceAll(s, [c], rep) == s
  {
    if s != [] {
      ReplaceOneChar(s, c, rep);
      ReplaceAbsentChar(s[1..], c, rep);
    }
  }

  lemma SplitAbsent(s: string, c: char)
    requires c !in s
    ensures Split(s, [c]) == [s]
  {
    ContainsChar(s, c);
    SplitWithoutSeparator(s, [c]);
  }

  /** Two words joined by a separator character occurring in neither split back into the two. */
  lemma SplitTwo(p: string, c: char, w: string)
    requires c !in p && c !in w
    ensures Split(p + [c] + w, [c]) == [p, w]
  {
    forall j | 0 <= j < |p|
      ensures !OccursAt(p + [c] + w, [c], j)
    {
      assert (p + [c] + w)[j..j + 1][0] == p[j];
    }
    SplitAtFirst(p, [c], w);
    SplitAbsent(w, c);
  }

  /** A rating word after "CR " is read back as it is, with mythic rank "0";
      without the space ("CR1") a space is inserted at index 2 first, with the
      same result. */
  lemma RatingRoundTrip(w: string)
    requires ' ' !in w && '*' !in w && '/' !in w && 'M' !in w
    ensures CrAndMr("CR " + w) == Ok((w, "0"))
    ensures CrAndMr("CR" + w) == Ok((w, "0"))
  {
    RatingSpaced(w);
    RatingBare(w);
  }

  lemma RatingSpaced(w: string)
    requires ' ' !in w && '*' !in w && '/' !in w && 'M' !in w
    ensures CrAndMr("CR " + w) == Ok((w, "0"))
  {
    var text := "CR " + w;
    assert Slice(text, 0, 3) == "CR ";
    assert '*' !in text;
    ReplaceAbsentChar(text, '*', "");
    assert RatingText(text) == text;
    assert 'M' !in text;
    if Contains(text, "MR") {
      ContainsFirstChar(text, "MR");
    }
    assert "CR" + " " + w == text;
    SplitTwo("CR", ' ', w);
  }

  /** Without the space after "CR" the rating text is the spaced one. */
  lemma RatingBare(w: string)
    requires ' ' !in w
    ensures RatingText("CR" + w) == RatingText("CR " + w)
  {
    var text := "CR " + w;
    assert Slice(text, 0, 3) == "CR ";
    var bare := "CR" + w;
    assert InsertText(bare, 2, " ") == text by {
      assert bare[..2] == "CR" && bare[2..] == w;
    }
    if |w| > 0 {
      assert Slice(bare, 0, 3)[2] == w[0];
    }
  }

  /** "CR a/MR b" splits at "/M" into the rating part and the rank part. */
  lemma MythicPieces(a: string, b: string)
    requires ' ' !in a && '*' !in a && '/' !in a
    requires ' ' !in b && '*' !in b && '/' !in b
    ensures var text := "CR " + a + "/MR " + b;
      && RatingText(text) == text && Contains(text, "MR")
      && Split(text, "/M") == ["CR " + a, "R " + b]
  {
    var text := "CR " + a + "/MR " + b;
    var head, tail := "CR " + a, "R " + b;
    assert text == head + "/M" + tail;
    assert Slice(text, 0, 3) == "CR ";
    assert '*' !in text;
    ReplaceAbsentChar(text, '*', "");
    assert text[|head| + 1..|head| + 3] == "MR";
    assert OccursAt(text, "MR", |head| + 1);
    forall j | 0 <= j < |head|
      ensures !OccursAt(text, "/M", j)
    {
      assert text[j..j + 2][0] == head[j];
    }
    SplitAtFirst(head, "/M", tail);
    assert '/' !in tail;
    if Contains(tail, "/M") {
      ContainsFirstChar(tail, "/M");
    }
    SplitWithoutSeparator(tail, "/M");
  }

  /** A rating and a mythic rank in the "CR a/MR b" form are read back as they are. */
  lemma MythicRoundTrip(a: string, b: string)
    requires ' ' !in a && '*' !in a && '/' !in a
    requires ' ' !in b && '*' !in b && '/' !in b
    ensures CrAndMr("CR " + a + "/MR " + b) == Ok((a, b))
  {
    var text := "CR " + a + "/MR " + b;
    assert RatingText(text) == text && Contains(text, "MR") && Split(text, "/M") == ["CR " + a, "R " + b] by {
      MythicPieces(a, b);
    }
    assert Split("CR " + a, " ") == ["CR", a] by {
      assert "CR " == "CR" + [' '];
      SplitTwo("CR", ' ', a);
    }
    assert Split("R " + b, " ") == ["R", b] by {
      assert "R " == "R" + [' '];
      SplitTwo("R", ' ', b);
    }
    MythicRead(text, "CR " + a, "R " + b, a, b);
  }

  /** The mythic branch of `get_cr_and_mr_from_text` on text whose pieces are known. */
  lemma MythicRead(text: string, head: string, tail: string, cr: string, mr: string)
    requires RatingText(text) == text && Contains(text, "MR") && Split(text, "/M") == [head, tail]
    requires Split(head, " ") == ["CR", cr] && Split(tail, " ") == ["R", mr]
    ensures CrAndMr(text) == Ok((cr, mr))
  {
  }

  lemma StarredInsert(w: string)
    ensures Slice("CR* " + w, 0, 3) == "CR*"
    ensures InsertText("CR* " + w, 2, " ") == "CR " + ("*" + " " + w)
  {
    var text := "CR* " + w;
    assert text[..2] == "CR" && text[2..] == "* " + w;
  }

  /** Removing a character that occurs once, between `a` and `b`. */
  lemma RemoveCharBetween(a: string, c: char, b: string)
    requires c !in a && c !in b
    ensures ReplaceAll(a + ([c] + b), [c], "") == a + b
  {
    var u := [c] + b;
    assert ReplaceAll(u, [c], "") == b by {
      assert u[0] == c && u[1..] == b;
      ReplaceOneChar(u, c, "");
      ReplaceAbsentChar(b, c, "");
    }
    assert ReplaceAll(a, [c], "") == a by {
      ReplaceAbsentChar(a, c, "");
    }
    ReplaceAppend(a, u, c, "");
  }

  lemma StarredRatingText(w: string)
    requires '*' !in w
    ensures RatingText("CR* " + w) == "CR" + [' '] + ("" + [' '] + w)
  {
    StarredInsert(w);
    var rest := " " + w;
    assert '*' !in rest && '*' !in "CR ";
    assert "*" + " " + w == ['*'] + rest;
    RemoveCharBetween("CR ", '*', rest);
    assert "CR " + rest == "CR" + [' '] + ("" + [' '] + w);
  }

  /** A '*' straight after "CR" defeats the space check, which runs before the
      '*' is removed: the rating read is the empty word between two spaces. */
  lemma StarredRatingIsEmpty(w: string)
    requires ' ' !in w && '*' !in w && 'M' !in w
    ensures CrAndMr("CR* " + w) == Ok(("", "0"))
  {
    StarredRatingText(w);
    var u := RatingText("CR* " + w);
    assert forall c :: c in u ==> c in "CR* " + w || c == ' ';
    assert 'M' !in u;
    if Contains(u, "MR") {
      ContainsFirstChar(u, "MR");
    }
    forall j | 0 <= j < 2
      ensures !OccursAt(u, " ", j)
    {
      assert u[j..j + 1][0] == u[j];
    }
    SplitAtFirst("CR", " ", "" + [' '] + w);
    SplitTwo("", ' ', w);
  }

  lemma {:induction false} ReplaceAppend(s: string, t: string, c: char, rep: string)
    ensures ReplaceAll(s + t, [c], rep) == ReplaceAll(s, [c], rep) + ReplaceAll(t, [c], rep)
  {
    if s == [] {
      assert s + t == t;
    } else {
      ReplaceAppend(s[1..], t, c, rep);
      ReplaceAppendStep(s, t, c, rep);
    }
  }

  /** The inductive step of `ReplaceAppend`: the head of `s` is rewritten alike on both sides. */
  lemma ReplaceAppendStep(s: string, t: string, c: char, rep: string)
    requires s != []
    requires ReplaceAll(s[1..] + t, [c], rep) == ReplaceAll(s[1..], [c], rep) + ReplaceAll(t, [c], rep)
    ensures ReplaceAll(s + t, [c], rep) == ReplaceAll(s, [c], rep) + ReplaceAll(t, [c], rep)
  {
    var h := if s[0] == c then rep else [s[0]];
    var a, b := ReplaceAll(s[1..], [c], rep), ReplaceAll(t, [c], rep);
    calc {
      ReplaceAll(s + t, [c], rep);
    == { ConsAppend(s, t); ReplaceOneChar(s + t, c, rep); }
      h + ReplaceAll(s[1..] + t, [c], rep);
    ==
      h + (a + b);
    ==
      (h + a) + b;
    == { ReplaceOneChar(s, c, rep); }
      ReplaceAll(s, [c], rep) + b;
    }
  }

  lemma ConsAppend(s: string, t: string)
    requires s != []
    ensures (s + t)[0] == s[0] && (s + t)[1..] == s[1..] + t
  {
  }

  /** A text without 'M' has mythic rank "0" whenever it can be read. */
  lemma NoMythicRankIsZero(text: string)
    requires 'M' !in text
    requires CrAndMr(text).Ok?
    ensures CrAndMr(text).value.1 == "0"
  {
    var t := RatingText(text);
    assert 'M' !in t by {
      assert forall c :: c in t ==> c in text || c == ' ';
    }
    assert !Contains(t, "MR") by {
      if Contains(t, "MR") {
        ContainsFirstChar(t, "MR");
      }
    }
    PlainRatingRank(text);
  }

  /** Without "MR" in the rating text the rank is "0" whenever it can be read. */
  lemma PlainRatingRank(text: string)
    requires !Contains(RatingText(text), "MR")
    requires CrAndMr(text).Ok?
    ensures CrAndMr(text).value.1 == "0"
  {
  }

  /** A one-digit fraction "CR x/y" is read as its quotient truncated to
      hundredths, at most four characters long. */
  lemma FractionRoundTrip(x: char, y: char)
    requires IsDigit(x) && IsDigit(y) && y != '0'
    ensures CrAndMr("CR " + [x, '/', y]) == Ok((QuotientText(DigitValue(x), DigitValue(y)), "0"))
    ensures |QuotientText(DigitValue(x), DigitValue(y))| <= 4
  {
    var w := [x, '/', y];
    var text := "CR " + w;
    RatingRoundTripWords(text, w);
    FractionRatingOf(x, y);
    assert '/' in w;
    assert At(Split(text, " "), 1) == Ok(w);
    QuotientTextTruncates(DigitValue(x), DigitValue(y));
  }

  lemma FractionRatingOf(x: char, y: char)
    requires IsDigit(x) && IsDigit(y) && y != '0'
    ensures FractionRating([x, '/', y]) == Ok(QuotientText(DigitValue(x), DigitValue(y)))
  {
    var w := [x, '/', y];
    assert At(w, 0) == Ok(x) && At(w, 2) == Ok(y);
  }

  /** The word list of "CR w" for a word without spaces, '*' or 'M'. */
  lemma RatingRoundTripWords(text: string, w: string)
    requires text == "CR " + w
    requires ' ' !in w && '*' !in w && 'M' !in w
    ensures RatingText(text) == text && !Contains(text, "MR") && Split(text, " ") == ["CR", w]
  {
    assert Slice(text, 0, 3) == "CR ";
    assert '*' !in text;
    ReplaceAbsentChar(text, '*', "");
    assert 'M' !in text;
    if Contains(text, "MR") {
      ContainsFirstChar(text, "MR");
    }
    assert "CR" + " " + w == text;
    SplitTwo("CR", ' ', w);
  }
}
