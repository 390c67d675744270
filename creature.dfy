/**
  * The creature record of data-mining/bestiary/core/creature.py and the
  * extraction of its fields from the word list of a formatted stat block:
  * every extractor anchors on the first "DEFENSE" or "STATISTICS" word, finds
  * the first occurrence of its key at or after it and reads the next word.
  * A missing anchor or key is the `ValueError` of `list.index`, a missing next
  * word the `IndexError` of indexing; neither falls back to a default.
  */
module Creatures {
  import opened Text
  import opened StatText

  const AC_KEYS: set<string> := {"AC", "touch", "flat-footed"}
  const SAVE_KEYS: set<string> := {"Fort", "Ref", "Will"}
  const ABILITY_KEYS: set<string> := {"Str", "Dex", "Con", "Int", "Wis", "Cha"}

  // ---------------------------------------------------------------- anchored lookup

  /** `i` is the first position of `x` in `xs`. */
  predicate FirstAt<T(==)>(xs: seq<T>, x: T, i: int)
  {
    0 <= i < |xs| && xs[i] == x && forall j :: 0 <= j < i ==> xs[j] != x
  }

  /** `words.index(key, words.index(anchor))`. */
  function KeyIndex(words: seq<string>, anchor: string, key: string): Result<nat>
  {
    var a :- IndexOf(words, anchor, 0);
    IndexOf(words, key, a)
  }

  /** With the first anchor at `a`, the lookup succeeds exactly when the key
      occurs at or after `a`, and then finds its first occurrence there: an
      occurrence of the key before the anchor is never used. */
  lemma KeyFollowsAnchor(words: seq<string>, anchor: string, key: string, a: nat)
    requires FirstAt(words, anchor, a)
    ensures KeyIndex(words, anchor, key).Ok? <==> key in words[a..]
    ensures KeyIndex(words, anchor, key).Ok? ==>
      var i := KeyIndex(words, anchor, key).value;
      a <= i && FirstAt(words[a..], key, i - a)
    ensures KeyIndex(words, anchor, key).Err? ==> KeyIndex(words, anchor, key).error == ValueError
  {
    assert IndexOf(words, anchor, 0) == Ok(a);
    var r := IndexOf(words, key, a);
    if key in words[a..] {
      var j :| 0 <= j < |words[a..]| && words[a..][j] == key;
      assert words[a + j] == key;
    }
    if r.Ok? {
      assert words[a..][r.value - a] == key;
    }
  }

  /** Without the anchor word every lookup is a `ValueError`. */
  lemma MissingAnchor(words: seq<string>, anchor: string, key: string)
    requires anchor !in words
    ensures KeyIndex(words, anchor, key) == Err(ValueError)
  {
  }

  /** The word right after the first `key` at or after the first `anchor`. */
  function WordAfterKey(words: seq<string>, anchor: string, key: string): Result<string>
  {
    var i :- KeyIndex(words, anchor, key);
    At(words, i + 1)
  }

  // ---------------------------------------------------------------- cleaning words

  /** `s.replace(c, '')`. */
  function Remove(s: string, c: char): (r: string)
    ensures c !in r
  {
    ReplaceRemovesChar(s, c);
    ReplaceAll(s, [c], "")
  }

  /** `s` with every `c` left out, character by character. */
  function Without(s: string, c: char): string
  {
    if s == [] then [] else (if s[0] == c then [] else [s[0]]) + Without(s[1..], c)
  }

  /** `replace(c, '')` deletes exactly the `c` characters and keeps the rest in order. */
  lemma {:induction false} RemoveIsWithout(s: string, c: char)
    ensures Remove(s, c) == Without(s, c)
  {
    if s != [] {
      ReplaceOneChar(s, c, "");
      RemoveIsWithout(s[1..], c);
    }
  }

  /** An AC value: the word with ',' and ';' removed. */
  function AcText(w: string): (r: string)
    ensures ',' !in r && ';' !in r
  {
    Remove(Remove(w, ','), ';')
  }

  /** A save value: the word with ',', ';' and '+' removed. */
  function SaveText(w: string): (r: string)
    ensures ',' !in r && ';' !in r && '+' !in r
  {
    Remove(AcText(w), '+')
  }

  /** An ability score: the cleaned word, or "-1" when that is empty or has a '-'. */
  function AbilityText(w: string): (r: string)
    ensures r == "-1" || (r == AcText(w) && r != "" && '-' !in r)
  {
    var c := AcText(w);
    if c == "" || '-' in c then "-1" else c
  }

  lemma RemoveAbsent(s: string, c: char)
    requires c !in s
    ensures Remove(s, c) == s
  {
    ReplaceAbsentChar(s, c, "");
  }

  lemma RemoveAppend(s: string, t: string, c: char)
    ensures Remove(s + t, c) == Remove(s, c) + Remove(t, c)
  {
    ReplaceAppend(s, t, c, "");
  }

  /** A save written "+n," is stored as "n". */
  lemma SaveTextOfSigned(n: string)
    requires ',' !in n && ';' !in n && '+' !in n
    ensures SaveText("+" + n + ",") == n
  {
    var w := "+" + n + ",";
    RemoveAppend("+" + n, ",", ',');
    RemoveAbsent("+" + n, ',');
    assert Remove(",", ',') == "" by { ReplaceOneChar(",", ',', ""); }
    assert Remove(w, ',') == "+" + n;
    RemoveAbsent("+" + n, ';');
    RemoveAppend("+", n, '+');
    RemoveAbsent(n, '+');
    assert Remove("+", '+') == "" by { ReplaceOneChar("+", '+', ""); }
  }

  /** The value `_update_ac` stores for `key`. */
  function AcValue(words: seq<string>, key: string): Result<string>
  {
    var w :- WordAfterKey(words, "DEFENSE", key);
    Ok(AcText(w))
  }

  /** The value `_update_saves` stores for `key`. */
  function SaveValue(words: seq<string>, key: string): Result<string>
  {
    var w :- WordAfterKey(words, "DEFENSE", key);
    Ok(SaveText(w))
  }

  /** The value `_update_abilities` stores for `key`. */
  function AbilityValue(words: seq<string>, key: string): Result<string>
  {
    var w :- WordAfterKey(words, "STATISTICS", key);
    Ok(AbilityText(w))
  }

  /** The readers the three key loops apply to each key. */
  function AcReader(words: seq<string>): string -> Result<string>
  {
    k => AcValue(words, k)
  }

  function SaveReader(words: seq<string>): string -> Result<string>
  {
    k => SaveValue(words, k)
  }

  function AbilityReader(words: seq<string>): string -> Result<string>
  {
    k => AbilityValue(words, k)
  }

  /** What each extractor reads: the word right after the first `key` at or
      after the first anchor, cleaned. */
  lemma ExtractedValues(words: seq<string>, key: string, a: nat, i: nat)
    requires FirstAt(words, "DEFENSE", a) && a <= i && FirstAt(words[a..], key, i - a)
    requires i + 1 < |words|
    ensures AcValue(words, key) == Ok(AcText(words[i + 1]))
    ensures SaveValue(words, key) == Ok(SaveText(words[i + 1]))
  {
    assert words[a..][i - a] == key;
    KeyFollowsAnchor(words, "DEFENSE", key, a);
    var k := KeyIndex(words, "DEFENSE", key).value;
    assert words[a..][k - a] == key;
  }

  // ---------------------------------------------------------------- hit points and hit dice

  /** `words[index + 1].strip()` after the first "hp" following "DEFENSE". */
  function HitPoints(words: seq<string>): Result<string>
  {
    var i :- KeyIndex(words, "DEFENSE", "hp");
    var w :- At(words, i + 1);
    Ok(Strip(w))
  }

  /** The hit-dice word: two after "hp", or three when that one contains "each". */
  function HitDiceWord(words: seq<string>): (r: Result<string>)
    ensures r.Ok? ==> exists i :: KeyIndex(words, "DEFENSE", "hp") == Ok(i) && i + 2 < |words| &&
                        if Contains(words[i + 2], "each") then i + 3 < |words| && r.value == words[i + 3]
                        else r.value == words[i + 2]
  {
    var i :- KeyIndex(words, "DEFENSE", "hp");
    var w :- At(words, i + 2);
    if Contains(w, "each") then At(words, i + 3) else Ok(w)
  }

  /** The count of an "NdM" hit-dice word, or an "N HD" word without its first character. */
  function DiceCount(w: string): string
  {
    var c := AcText(w);
    if 'd' in c then Slice(c, 1, IndexOf(c, 'd', 0).value) else Slice(c, 1, |c|)
  }

  function HitDice(words: seq<string>): Result<string>
  {
    var w :- HitDiceWord(words);
    Ok(DiceCount(w))
  }

  lemma AcTextAppend(s: string, t: string)
    ensures AcText(s + t) == AcText(s) + AcText(t)
  {
    RemoveAppend(s, t, ',');
    ReplaceAppend(Remove(s, ','), Remove(t, ','), ';', "");
  }

  lemma AcTextClean(s: string)
    requires ',' !in s && ';' !in s
    ensures AcText(s) == s
  {
    RemoveAbsent(s, ',');
    ReplaceAbsentChar(s, ';', "");
  }

  /** "(NdM...)" gives N. */
  lemma DiceCountOfDice(n: string, m: string)
    requires 'd' !in n && ',' !in n && ';' !in n
    ensures DiceCount("(" + n + "d" + m) == n
  {
    AcTextAppend("(" + n + "d", m);
    AcTextClean("(" + n + "d");
    var c := AcText("(" + n + "d" + m);
    assert c == "(" + n + "d" + AcText(m);
    assert c[|n| + 1] == 'd';
    assert IndexOf(c, 'd', 0) == Ok(|n| + 1) by {
      assert forall j :: 0 <= j < |n| + 1 ==> c[j] == ("(" + n)[j];
    }
    assert c[1..|n| + 1] == n;
  }

  /** "(N" gives N. */
  lemma DiceCountOfCount(n: string)
    requires 'd' !in n && ',' !in n && ';' !in n
    ensures DiceCount("(" + n) == n
  {
    AcTextClean("(" + n);
    assert ("(" + n)[1..] == n;
  }

  // ---------------------------------------------------------------- header

  /** The header text cut at its first "CR": the name is everything before the
      character preceding it, the rating fragment everything from it on. The
      text is first stripped and its whitespace runs collapsed. */
  function SplitHeader(header: string): (r: Result<(string, string)>)
    ensures r.Err? ==> r.error == ValueError
  {
    CutAtRating(CollapseSpaces(Strip(header)))
  }

  /** The cut itself, on the normalised header text. */
  function CutAtRating(info: string): Result<(string, string)>
  {
    var i := Find(info, "CR", 0);
    if i < 0 then Err(ValueError) else Ok((Slice(info, 0, i - 1), info[i..]))
  }

  /** The header split fails exactly when the text has no "CR"; otherwise the
      rating fragment starts with "CR", the name holds no "CR", and when "CR"
      is not at the very start, the name, the one dropped character and the
      rating fragment make up the whole text. */
  lemma HeaderCut(header: string)
    ensures var info := CollapseSpaces(Strip(header));
      SplitHeader(header).Ok? <==> Contains(info, "CR")
    ensures var info := CollapseSpaces(Strip(header));
      SplitHeader(header).Ok? ==>
        var (name, rating) := SplitHeader(header).value;
        && |rating| >= 2 && rating[..2] == "CR"
        && (|name| + |rating| < |info| ==> !Contains(name, "CR") && info == name + [info[|name|]] + rating)
        && (|name| + |rating| >= |info| ==> rating == info && name == info[..|info| - 1])
  {
    RatingCut(CollapseSpaces(Strip(header)));
  }

  /** `HeaderCut` for the normalised text. */
  lemma RatingCut(info: string)
    ensures CutAtRating(info).Ok? <==> Contains(info, "CR")
    ensures CutAtRating(info).Ok? ==>
        var (name, rating) := CutAtRating(info).value;
        && |rating| >= 2 && rating[..2] == "CR"
        && (|name| + |rating| < |info| ==> !Contains(name, "CR") && info == name + [info[|name|]] + rating)
        && (|name| + |rating| >= |info| ==> rating == info && name == info[..|info| - 1])
  {
    ContainsIffFound(info, "CR");
    var i := FindFrom(info, "CR", 0);
    assert Find(info, "CR", 0) == i;
    if i >= 0 {
      CutAtFirst(info, i);
    }
  }

  /** Cutting a text at the first "CR", which is at `i`. */
  lemma CutAtFirst(info: string, i: nat)
    requires OccursAt(info, "CR", i)
    requires forall j :: 0 <= j < i ==> !OccursAt(info, "CR", j)
    ensures var name, rating := Slice(info, 0, i - 1), info[i..];
      && |rating| >= 2 && rating[..2] == "CR"
      && (|name| + |rating| < |info| ==> !Contains(name, "CR") && info == name + [info[|name|]] + rating)
      && (|name| + |rating| >= |info| ==> rating == info && name == info[..|info| - 1])
  {
    var name := Slice(info, 0, i - 1);
    if i >= 1 {
      assert name == info[..i - 1];
      if Contains(name, "CR") {
        var j :| 0 <= j <= |name| - 2 && OccursAt(name, "CR", j);
        assert info[j..j + 2] == name[j..j + 2];
        assert OccursAt(info, "CR", j);
      }
      assert info == info[..i - 1] + [info[i - 1]] + info[i..];
    }
  }

  /** When "CR" opens the text, `info_text.index('CR') - 1` is -1, so the name
      is the text without its last character: "CR 1" gives the name "CR " and
      the rating fragment "CR 1". */
  lemma LeadingRatingCut()
    ensures CutAtRating("CR 1") == Ok(("CR ", "CR 1"))
  {
    assert Find("CR 1", "CR", 0) == 0 by {
      assert OccursAt("CR 1", "CR", 0);
    }
    assert SliceIndex(-1, 4) == 3;
    assert Slice("CR 1", 0, -1) == "CR 1"[0..3] == "CR ";
    assert "CR 1"[0..] == "CR 1";
  }

  /** What the header pass produces: its outcome, the formatted name if it got
      that far, and the (rating, rank) pair if it got that far too. */
  datatype HeaderResult = HeaderResult(outcome: Outcome, name: Option<string>, rating: Option<(string, string)>)

  /** The header pass: split the header, format the name, read the rating; the
      first step that raises ends it. */
  function ReadHeader(header: string): (h: HeaderResult)
    ensures h.outcome.Pass? <==> h.rating.Some?
    ensures h.rating.Some? ==> h.name.Some?
  {
    match SplitHeader(header)
    case Err(e) => HeaderResult(Fail(e), None, None)
    case Ok((nameText, ratingText)) =>
      match FormatName(nameText)
      case Err(e) => HeaderResult(Fail(e), None, None)
      case Ok(name) =>
        match CrAndMr(ratingText)
        case Err(e) => HeaderResult(Fail(e), Some(name), None)
        case Ok(rating) => HeaderResult(Pass, Some(name), Some(rating))
  }

  /** A header without "CR" fails with ValueError and keeps everything; one that
      passes stores a name cased word by word from its ASCII letters, and a
      rating text without 'M' stores mythic rank "0". */
  lemma HeaderFields(header: string)
    ensures var info := CollapseSpaces(Strip(header));
      !Contains(info, "CR") ==> ReadHeader(header) == HeaderResult(Fail(ValueError), None, None)
    ensures var h := ReadHeader(header);
      h.name.Some? ==>
        && SplitHeader(header).Ok?
        && NameCased(AsciiOnly(SplitHeader(header).value.0), h.name.value)
        && LowerStr(h.name.value) == LowerStr(AsciiOnly(SplitHeader(header).value.0))
    ensures var h := ReadHeader(header);
      h.rating.Some? && 'M' !in SplitHeader(header).value.1 ==> h.rating.value.1 == "0"
  {
    HeaderCut(header);
    var parts := SplitHeader(header);
    if parts.Ok? && FormatName(parts.value.0).Ok? {
      FormatNameCasing(parts.value.0);
      if CrAndMr(parts.value.1).Ok? && 'M' !in parts.value.1 {
        NoMythicRankIsZero(parts.value.1);
      }
    }
  }

  // ---------------------------------------------------------------- the record

  /** The fields of a creature, as values. */
  datatype Record = Record(
    name: string, cr: string, mr: string, hp: string, hd: string,
    ac: map<string, string>, saves: map<string, string>, abilityScores: map<string, string>)

  /** The dictionaries of a record have their fixed keys. */
  predicate Shaped(r: Record)
  {
    r.ac.Keys == AC_KEYS && r.saves.Keys == SAVE_KEYS && r.abilityScores.Keys == ABILITY_KEYS
  }

  /** A fresh creature: empty name, every other field "0". */
  const DEFAULT_RECORD := Record("", "0", "0", "0", "0",
    map["AC" := "0", "touch" := "0", "flat-footed" := "0"],
    map["Fort" := "0", "Ref" := "0", "Will" := "0"],
    map["Str" := "0", "Dex" := "0", "Con" := "0", "Int" := "0", "Wis" := "0", "Cha" := "0"])

  /** The values a key loop stores when every key can be read, or `None`. */
  function Fill(keys: set<string>, f: string -> Result<string>): (r: Option<map<string, string>>)
    ensures r.Some? <==> forall k :: k in keys ==> f(k).Ok?
    ensures r.Some? ==> r.value.Keys == keys && forall k :: k in keys ==> r.value[k] == f(k).value
  {
    if forall k :: k in keys ==> f(k).Ok? then Some(map k | k in keys :: f(k).value) else None
  }

  /** A map holding exactly the values of a successful key loop is its result. */
  lemma FillIs(keys: set<string>, f: string -> Result<string>, m: map<string, string>)
    requires m.Keys == keys && forall k :: k in keys ==> f(k).Ok? && m[k] == f(k).value
    ensures Fill(keys, f) == Some(m)
  {
    assert Fill(keys, f).value == m;
  }

  /** One key loop of the `_update_*` methods: for each key of `m`, in whatever
      order, compute its value and store it; the first failing key ends the loop,
      leaving the keys done so far updated. */
  method FillValues(m: map<string, string>, f: string -> Result<string>) returns (m': map<string, string>, o: Outcome)
    ensures m'.Keys == m.Keys
    ensures o.Pass? <==> forall k :: k in m ==> f(k).Ok?
    ensures o.Pass? ==> forall k :: k in m ==> m'[k] == f(k).value
    ensures o.Fail? ==> exists k :: k in m && f(k) == Err(o.error)
    ensures forall k :: k in m ==> m'[k] == m[k] || (f(k).Ok? && m'[k] == f(k).value)
    ensures o.Pass? ==> Fill(m.Keys, f) == Some(m')
    ensures o.Fail? ==> LoopRaised(m, m', f, o.error)
  {
    m' := m;
    var todo := m.Keys;
    while todo != {}
      invariant todo <= m.Keys && m'.Keys == m.Keys
      invariant forall k :: k in m && k !in todo ==> f(k).Ok? && m'[k] == f(k).value
      invariant forall k :: k in todo ==> m'[k] == m[k]
      decreases todo
    {
      var k :| k in todo;
      var r := f(k);
      if r.Err? {
        return m', Fail(r.error);
      }
      m' := m'[k := r.value];
      todo := todo - {k};
    }
    FillIs(m.Keys, f, m');
    return m', Pass;
  }

  /** The words of a formatted stat block, split on single spaces. */
  function EntryWords(body: string): (r: Result<seq<string>>)
    ensures r.Ok? <==> FormatEntry(body).Ok?
    ensures r.Ok? ==> Join(" ", r.value) == FormatEntry(body).value
  {
    var text :- FormatEntry(body);
    JoinSplit(text, " ");
    Ok(Split(text, " "))
  }

  /** What a completed entry pass stores: hit points, hit dice and the three
      dictionaries read from the words, the header fields untouched; `None`
      when some lookup raises. */
  function ApplyBody(rec: Record, words: seq<string>): Option<Record>
  {
    var hp := HitPoints(words);
    var hd := HitDice(words);
    var ac := Fill(rec.ac.Keys, AcReader(words));
    var saves := Fill(rec.saves.Keys, SaveReader(words));
    var abilities := Fill(rec.abilityScores.Keys, AbilityReader(words));
    if hp.Ok? && hd.Ok? && ac.Some? && saves.Some? && abilities.Some? then
      Some(rec.(hp := hp.value, hd := hd.value, ac := ac.value, saves := saves.value, abilityScores := abilities.value))
    else
      None
  }

  /** An entry pass completes exactly when every lookup succeeds, and then
      stores the extracted values and keeps the header fields and key sets. */
  lemma BodyValues(rec: Record, words: seq<string>)
    ensures ApplyBody(rec, words).Some? <==>
      && HitPoints(words).Ok? && HitDice(words).Ok?
      && (forall k :: k in rec.ac ==> AcValue(words, k).Ok?)
      && (forall k :: k in rec.saves ==> SaveValue(words, k).Ok?)
      && (forall k :: k in rec.abilityScores ==> AbilityValue(words, k).Ok?)
    ensures var b := ApplyBody(rec, words);
      b.Some? ==>
        && b.value.name == rec.name && b.value.cr == rec.cr && b.value.mr == rec.mr
        && b.value.hp == HitPoints(words).value && b.value.hd == HitDice(words).value
        && b.value.ac.Keys == rec.ac.Keys && b.value.saves.Keys == rec.saves.Keys
        && b.value.abilityScores.Keys == rec.abilityScores.Keys
        && (forall k :: k in rec.ac ==> b.value.ac[k] == AcValue(words, k).value)
        && (forall k :: k in rec.saves ==> b.value.saves[k] == SaveValue(words, k).value)
        && (forall k :: k in rec.abilityScores ==> b.value.abilityScores[k] == AbilityValue(words, k).value)
  {
  }

  /** What a completed header pass stores: name, rating and mythic rank. */
  function ApplyHeader(rec: Record, header: string): (r: Option<Record>)
    ensures r.Some? <==> ReadHeader(header).outcome.Pass?
  {
    var h := ReadHeader(header);
    if h.outcome.Pass? then Some(rec.(name := h.name.value, cr := h.rating.value.0, mr := h.rating.value.1))
    else None
  }
  /** A completed header pass stores the formatted name and the rating pair,
      and nothing else. */
  lemma HeaderValues(rec: Record, header: string)
    requires ApplyHeader(rec, header).Some?
    ensures var h := ReadHeader(header);
      ApplyHeader(rec, header).value == rec.(name := h.name.value, cr := h.rating.value.0, mr := h.rating.value.1)
  {
  }

  /** A fresh creature's dictionaries have the fixed keys. */
  lemma DefaultKeys()
    ensures DEFAULT_RECORD.ac.Keys == AC_KEYS && DEFAULT_RECORD.saves.Keys == SAVE_KEYS
    ensures DEFAULT_RECORD.abilityScores.Keys == ABILITY_KEYS
  {
  }

  // ---------------------------------------------------------------- passes that raise

  /** A key loop over `m` that raised `e`: the read of some key raised it, the
      key set is kept, and each key holds its old value or the value read for it. */
  ghost predicate LoopRaised(m: map<string, string>, m': map<string, string>, f: string -> Result<string>, e: PyError)
  {
    && m'.Keys == m.Keys
    && (exists k :: k in m && f(k) == Err(e))
    && (forall k :: k in m ==> m'[k] == m[k] || (f(k).Ok? && m'[k] == f(k).value))
  }

  /** The hit-point step raised `e`: when the hit points could be read they are
      stored, and the hit dice keep their old value. */
  ghost predicate HpHdRaised(before: Record, after: Record, words: seq<string>, e: PyError)
  {
    if HitPoints(words).Err? then
      after.hp == before.hp && after.hd == before.hd && e == HitPoints(words).error
    else
      HitDice(words).Err? && after.hp == HitPoints(words).value && after.hd == before.hd && e == HitDice(words).error
  }

  /** What an entry pass in the creature's order (abilities, hit points and
      dice, armor class, saves) leaves when it raises `e`: the steps before the
      raising one stored their values, the raising one is part done, and the
      steps after it and the header fields are untouched. */
  ghost predicate CreaturePassRaised(before: Record, after: Record, words: seq<string>, e: PyError)
  {
    var abilities := Fill(before.abilityScores.Keys, AbilityReader(words));
    var ac := Fill(before.ac.Keys, AcReader(words));
    && after.name == before.name && after.cr == before.cr && after.mr == before.mr
    && if abilities.None? then
         && LoopRaised(before.abilityScores, after.abilityScores, AbilityReader(words), e)
         && after.hp == before.hp && after.hd == before.hd && after.ac == before.ac && after.saves == before.saves
       else if HitPoints(words).Err? || HitDice(words).Err? then
         && after.abilityScores == abilities.value
         && HpHdRaised(before, after, words, e) && after.ac == before.ac && after.saves == before.saves
       else if ac.None? then
         && after.abilityScores == abilities.value
         && after.hp == HitPoints(words).value && after.hd == HitDice(words).value
         && LoopRaised(before.ac, after.ac, AcReader(words), e) && after.saves == before.saves
       else
         && after.abilityScores == abilities.value
         && after.hp == HitPoints(words).value && after.hd == HitDice(words).value
         && after.ac == ac.value
         && LoopRaised(before.saves, after.saves, SaveReader(words), e)
  }

  /** What the creature's `_update_entry_values` leaves when it raises `e`: a
      stat block that cannot be formatted changes nothing; otherwise the word
      pass raised. */
  ghost predicate EntryRaised(before: Record, after: Record, body: string, e: PyError)
  {
    match EntryWords(body)
    case Err(e0) => after == before && e == e0
    case Ok(words) => CreaturePassRaised(before, after, words, e)
  }

  /** What the header pass leaves when it raises `e`: the formatted name when it
      got that far, everything else untouched. */
  ghost predicate HeaderRaised(before: Record, after: Record, header: string, e: PyError)
  {
    var h := ReadHeader(header);
    && h.outcome == Fail(e)
    && after == before.(name := if h.name.Some? then h.name.value else before.name)
  }

  /** The creature's pass raised in the ability step. */
  lemma RaisedAtAbilities(before: Record, after: Record, words: seq<string>, e: PyError)
    requires after == before.(abilityScores := after.abilityScores)
    requires LoopRaised(before.abilityScores, after.abilityScores, AbilityReader(words), e)
    ensures CreaturePassRaised(before, after, words, e)
    ensures ApplyBody(before, words).None?
  {
    BodyValues(before, words);
  }

  /** The creature's pass raised in the hit-point step. */
  lemma RaisedAtHitPoints(before: Record, after: Record, words: seq<string>, e: PyError)
    requires after == before.(abilityScores := after.abilityScores, hp := after.hp, hd := after.hd)
    requires Fill(before.abilityScores.Keys, AbilityReader(words)) == Some(after.abilityScores)
    requires HpHdRaised(before, after, words, e)
    ensures CreaturePassRaised(before, after, words, e)
    ensures ApplyBody(before, words).None?
  {
    BodyValues(before, words);
  }

  /** The creature's pass raised in the armor-class step. */
  lemma RaisedAtAc(before: Record, after: Record, words: seq<string>, e: PyError)
    requires after == before.(abilityScores := after.abilityScores, hp := after.hp, hd := after.hd, ac := after.ac)
    requires Fill(before.abilityScores.Keys, AbilityReader(words)) == Some(after.abilityScores)
    requires HitPoints(words) == Ok(after.hp) && HitDice(words) == Ok(after.hd)
    requires LoopRaised(before.ac, after.ac, AcReader(words), e)
    ensures CreaturePassRaised(before, after, words, e)
    ensures ApplyBody(before, words).None?
  {
    BodyValues(before, words);
  }

  /** The creature's pass raised in the save step. */
  lemma RaisedAtSaves(before: Record, after: Record, words: seq<string>, e: PyError)
    requires after == before.(abilityScores := after.abilityScores, hp := after.hp, hd := after.hd, ac := after.ac, saves := after.saves)
    requires Fill(before.abilityScores.Keys, AbilityReader(words)) == Some(after.abilityScores)
    requires HitPoints(words) == Ok(after.hp) && HitDice(words) == Ok(after.hd)
    requires Fill(before.ac.Keys, AcReader(words)) == Some(after.ac)
    requires LoopRaised(before.saves, after.saves, SaveReader(words), e)
    ensures CreaturePassRaised(before, after, words, e)
    ensures ApplyBody(before, words).None?
  {
    BodyValues(before, words);
  }

  /** `Creature`: name, challenge rating, mythic rank, hit points, hit dice and
      three dictionaries whose key sets never change. */
  class Creature {
    var name: string
    var cr: string
    var mr: string
    var hp: string
    var hd: string
    var ac: map<string, string>
    var saves: map<string, string>
    var abilityScores: map<string, string>

    function Snapshot(): Record
      reads this
    {
      Record(name, cr, mr, hp, hd, ac, saves, abilityScores)
    }

    /** The dictionaries have their fixed keys. */
    predicate Valid()
      reads this
    {
      Shaped(Snapshot())
    }

    constructor()
      ensures Snapshot() == DEFAULT_RECORD && Valid()
    {
      name, cr, mr, hp, hd := "", "0", "0", "0", "0";
      ac := map["AC" := "0", "touch" := "0", "flat-footed" := "0"];
      saves := map["Fort" := "0", "Ref" := "0", "Will" := "0"];
      abilityScores := map["Str" := "0", "Dex" := "0", "Con" := "0", "Int" := "0", "Wis" := "0", "Cha" := "0"];
    }

    /** `_update_abilities`: the key loop over `abilityScores`. */
    method UpdateAbilities(words: seq<string>) returns (o: Outcome)
      modifies this
      ensures Snapshot() == old(Snapshot()).(abilityScores := abilityScores)
      ensures o.Pass? <==> Fill(old(abilityScores).Keys, AbilityReader(words)).Some?
      ensures o.Pass? ==> abilityScores == Fill(old(abilityScores).Keys, AbilityReader(words)).value
      ensures o.Fail? ==> LoopRaised(old(abilityScores), abilityScores, AbilityReader(words), o.error)
    {
      abilityScores, o := FillValues(abilityScores, AbilityReader(words));
    }

    /** `_update_ac`: the key loop over `ac`. */
    method UpdateAc(words: seq<string>) returns (o: Outcome)
      modifies this
      ensures Snapshot() == old(Snapshot()).(ac := ac)
      ensures o.Pass? <==> Fill(old(ac).Keys, AcReader(words)).Some?
      ensures o.Pass? ==> ac == Fill(old(ac).Keys, AcReader(words)).value
      ensures o.Fail? ==> LoopRaised(old(ac), ac, AcReader(words), o.error)
    {
      ac, o := FillValues(ac, AcReader(words));
    }

    /** `_update_saves`: the key loop over `saves`. */
    method UpdateSaves(words: seq<string>) returns (o: Outcome)
      modifies this
      ensures Snapshot() == old(Snapshot()).(saves := saves)
      ensures o.Pass? <==> Fill(old(saves).Keys, SaveReader(words)).Some?
      ensures o.Pass? ==> saves == Fill(old(saves).Keys, SaveReader(words)).value
      ensures o.Fail? ==> LoopRaised(old(saves), saves, SaveReader(words), o.error)
    {
      saves, o := FillValues(saves, SaveReader(words));
    }

    /** `_update_hp_and_hd`: `hp` is stored before the hit-dice word is read,
        so a missing hit-dice word leaves the new `hp` in place. */
    method UpdateHpAndHd(words: seq<string>) returns (o: Outcome)
      modifies this
      ensures Snapshot() == old(Snapshot()).(hp := hp, hd := hd)
      ensures hp == if HitPoints(words).Ok? then HitPoints(words).value else old(hp)
      ensures hd == if HitPoints(words).Ok? && HitDice(words).Ok? then HitDice(words).value else old(hd)
      ensures o == if HitPoints(words).Err? then Fail(HitPoints(words).error)
                   else if HitDice(words).Err? then Fail(HitDice(words).error) else Pass
    {
      var p := HitPoints(words);
      if p.Err? {
        return Fail(p.error);
      }
      hp := p.value;
      var d := HitDice(words);
      if d.Err? {
        return Fail(d.error);
      }
      hd := d.value;
      return Pass;
    }

    /** The string part of `_update_header_values`: the name is stored before
        the rating is read, so an unreadable rating leaves the new name in place. */
    method UpdateHeaderValues(header: string) returns (o: Outcome)
      modifies this
      ensures Snapshot() == old(Snapshot()).(name := name, cr := cr, mr := mr)
      ensures var h := ReadHeader(header);
        && o == h.outcome
        && name == (if h.name.Some? then h.name.value else old(name))
        && (cr, mr) == (if h.rating.Some? then h.rating.value else (old(cr), old(mr)))
    {
      var parts := SplitHeader(header);
      if parts.Err? {
        return Fail(parts.error);
      }
      var formatted := FormatName(parts.value.0);
      if formatted.Err? {
        return Fail(formatted.error);
      }
      name := formatted.value;
      var rating := CrAndMr(parts.value.1);
      if rating.Err? {
        return Fail(rating.error);
      }
      cr, mr := rating.value.0, rating.value.1;
      return Pass;
    }

    /** `_update_entry_values`, from the stat-block text: format it, split it
        into words, then read them. */
    method UpdateEntryValues(body: string) returns (o: Outcome)
      requires Valid()
      modifies this
      ensures Valid()
      ensures name == old(name) && cr == old(cr) && mr == old(mr)
      ensures o.Pass? <==> EntryWords(body).Ok? && ApplyBody(old(Snapshot()), EntryWords(body).value).Some?
      ensures o.Pass? ==> Snapshot() == ApplyBody(old(Snapshot()), EntryWords(body).value).value
      ensures o.Fail? ==> EntryRaised(old(Snapshot()), Snapshot(), body, o.error)
    {
      var text := FormatEntry(body);
      if text.Err? {
        return Fail(text.error);
      }
      var words := Split(text.value, " ");
      o := UpdateFromWords(words);
    }

    /** The reading part of `_update_entry_values`: abilities, hit points and
        dice, armor class and saves, the first lookup that raises ending it. */
    method UpdateFromWords(words: seq<string>) returns (o: Outcome)
      requires Valid()
      modifies this
      ensures Valid()
      ensures name == old(name) && cr == old(cr) && mr == old(mr)
      ensures o.Pass? <==> ApplyBody(old(Snapshot()), words).Some?
      ensures o.Pass? ==> Snapshot() == ApplyBody(old(Snapshot()), words).value
      ensures o.Fail? ==> CreaturePassRaised(old(Snapshot()), Snapshot(), words, o.error)
    {
      ghost var before := Snapshot();
      o := UpdateAbilities(words);
      if o.Fail? {
        RaisedAtAbilities(before, Snapshot(), words, o.error);
        return;
      }
      o := UpdateHpAndHd(words);
      if o.Fail? {
        RaisedAtHitPoints(before, Snapshot(), words, o.error);
        return;
      }
      o := UpdateAc(words);
      if o.Fail? {
        RaisedAtAc(before, Snapshot(), words, o.error);
        return;
      }
      o := UpdateSaves(words);
      if o.Fail? {
        RaisedAtSaves(before, Snapshot(), words, o.error);
      }
    }

    /** `update_via_htmlelement`: the header pass, then the entry pass. */
    method UpdateFromText(header: string, body: string) returns (o: Outcome)
      requires Valid()
      modifies this
      ensures Valid()
      ensures o.Pass? <==>
        var h := ApplyHeader(old(Snapshot()), header);
        h.Some? && EntryWords(body).Ok? && ApplyBody(h.value, EntryWords(body).value).Some?
      ensures o.Pass? ==>
        Snapshot() == ApplyBody(ApplyHeader(old(Snapshot()), header).value, EntryWords(body).value).value
      ensures o.Fail? ==>
        if ReadHeader(header).outcome.Fail? then HeaderRaised(old(Snapshot()), Snapshot(), header, o.error)
        else EntryRaised(ApplyHeader(old(Snapshot()), header).value, Snapshot(), body, o.error)
    {
      o := UpdateHeaderValues(header);
      if o.Fail? {
        return;
      }
      o := UpdateEntryValues(body);
    }
  }
}
