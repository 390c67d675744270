/** `D20PFSRDCreatureBuilder`: fills a fresh creature from the header text and
    the stat-block text of a bestiary page. The page's HTML is not modelled:
    the two texts the builder selects from it are the inputs. The builder's
    populate steps are the creature's own update steps in a different order. */
module D20pfsrd {
  import opened Text
  import opened StatText
  import opened Creatures

  /** `_populate_ability_scores`: the key loop over `abilityScores`. */
  method PopulateAbilityScores(words: seq<string>, creature: Creature) returns (o: Outcome)
    modifies creature
    ensures creature.Snapshot() == old(creature.Snapshot()).(abilityScores := creature.abilityScores)
    ensures o.Pass? <==> Fill(old(creature.abilityScores).Keys, AbilityReader(words)).Some?
    ensures o.Pass? ==> creature.abilityScores == Fill(old(creature.abilityScores).Keys, AbilityReader(words)).value
    ensures o.Fail? ==> LoopRaised(old(creature.abilityScores), creature.abilityScores, AbilityReader(words), o.error)
  {
    creature.abilityScores, o := FillValues(creature.abilityScores, AbilityReader(words));
  }

  /** `_populate_ac`: the key loop over `ac`. */
  method PopulateAc(words: seq<string>, creature: Creature) returns (o: Outcome)
    modifies creature
    ensures creature.Snapshot() == old(creature.Snapshot()).(ac := creature.ac)
    ensures o.Pass? <==> Fill(old(creature.ac).Keys, AcReader(words)).Some?
    ensures o.Pass? ==> creature.ac == Fill(old(creature.ac).Keys, AcReader(words)).value
    ensures o.Fail? ==> LoopRaised(old(creature.ac), creature.ac, AcReader(words), o.error)
  {
    creature.ac, o := FillValues(creature.ac, AcReader(words));
  }

  /** `_populate_saves`: the key loop over `saves`. */
  method PopulateSaves(words: seq<string>, creature: Creature) returns (o: Outcome)
    modifies creature
    ensures creature.Snapshot() == old(creature.Snapshot()).(saves := creature.saves)
    ensures o.Pass? <==> Fill(old(creature.saves).Keys, SaveReader(words)).Some?
    ensures o.Pass? ==> creature.saves == Fill(old(creature.saves).Keys, SaveReader(words)).value
    ensures o.Fail? ==> LoopRaised(old(creature.saves), creature.saves, SaveReader(words), o.error)
  {
    creature.saves, o := FillValues(creature.saves, SaveReader(words));
  }

  /** `_populate_hp_and_hd`: `hp` is stored before the hit-dice word is read. */
  method PopulateHpAndHd(words: seq<string>, creature: Creature) returns (o: Outcome)
    modifies creature
    ensures creature.Snapshot() == old(creature.Snapshot()).(hp := creature.hp, hd := creature.hd)
    ensures creature.hp == if HitPoints(words).Ok? then HitPoints(words).value else old(creature.hp)
    ensures creature.hd == if HitPoints(words).Ok? && HitDice(words).Ok? then HitDice(words).value else old(creature.hd)
    ensures o == if HitPoints(words).Err? then Fail(HitPoints(words).error)
                 else if HitDice(words).Err? then Fail(HitDice(words).error) else Pass
  {
    var p := HitPoints(words);
    if p.Err? {
      return Fail(p.error);
    }
    creature.hp := p.value;
    var d := HitDice(words);
    if d.Err? {
      return Fail(d.error);
    }
    creature.hd := d.value;
    return Pass;
  }

  /** `_populate_from_header_values`, from the header text. */
  method PopulateFromHeaderValues(header: string, creature: Creature) returns (o: Outcome)
    modifies creature
    ensures o.Pass? <==> ApplyHeader(old(creature.Snapshot()), header).Some?
    ensures o.Pass? ==> creature.Snapshot() == ApplyHeader(old(creature.Snapshot()), header).value
    ensures creature.Snapshot() == old(creature.Snapshot()).(name := creature.name, cr := creature.cr, mr := creature.mr)
    ensures o.Fail? ==> HeaderRaised(old(creature.Snapshot()), creature.Snapshot(), header, o.error)
  {
    var parts := SplitHeader(header);
    if parts.Err? {
      return Fail(parts.error);
    }
    var formatted := FormatName(parts.value.0);
    if formatted.Err? {
      return Fail(formatted.error);
    }
    creature.name := formatted.value;
    var rating := CrAndMr(parts.value.1);
    if rating.Err? {
      return Fail(rating.error);
    }
    creature.cr, creature.mr := rating.value.0, rating.value.1;
    return Pass;
  }

  // ---------------------------------------------------------------- passes that raise

  /** What an entry pass in the builder's order (hit points and dice, armor
      class, saves, abilities) leaves when it raises `e`: the steps before the
      raising one stored their values, the raising one is part done, and the
      steps after it and the header fields are untouched. */
  ghost predicate BuilderPassRaised(before: Record, after: Record, words: seq<string>, e: PyError)
  {
    var ac := Fill(before.ac.Keys, AcReader(words));
    var saves := Fill(before.saves.Keys, SaveReader(words));
    && after.name == before.name && after.cr == before.cr && after.mr == before.mr
    && if HitPoints(words).Err? || HitDice(words).Err? then
         && HpHdRaised(before, after, words, e)
         && after.ac == before.ac && after.saves == before.saves && after.abilityScores == before.abilityScores
       else if ac.None? then
         && after.hp == HitPoints(words).value && after.hd == HitDice(words).value
         && LoopRaised(before.ac, after.ac, AcReader(words), e)
         && after.saves == before.saves && after.abilityScores == before.abilityScores
       else if saves.None? then
         && after.hp == HitPoints(words).value && after.hd == HitDice(words).value
         && after.ac == ac.value
         && LoopRaised(before.saves, after.saves, SaveReader(words), e) && after.abilityScores == before.abilityScores
       else
         && after.hp == HitPoints(words).value && after.hd == HitDice(words).value
         && after.ac == ac.value && after.saves == saves.value
         && LoopRaised(before.abilityScores, after.abilityScores, AbilityReader(words), e)
  }

  /** What `_populate_from_entry_values` leaves when it raises `e`: a stat block
      that cannot be formatted changes nothing; otherwise the word pass raised. */
  ghost predicate BuilderEntryRaised(before: Record, after: Record, body: string, e: PyError)
  {
    match EntryWords(body)
    case Err(e0) => after == before && e == e0
    case Ok(words) => BuilderPassRaised(before, after, words, e)
  }

  /** The builder's pass raised in the hit-point step. */
  lemma BuilderRaisedAtHitPoints(before: Record, after: Record, words: seq<string>, e: PyError)
    requires after == before.(hp := after.hp, hd := after.hd)
    requires HpHdRaised(before, after, words, e)
    ensures BuilderPassRaised(before, after, words, e)
    ensures ApplyBody(before, words).None?
  {
  }

  /** The builder's pass raised in the armor-class step. */
  lemma BuilderRaisedAtAc(before: Record, after: Record, words: seq<string>, e: PyError)
    requires after == before.(hp := after.hp, hd := after.hd, ac := after.ac)
    requires HitPoints(words) == Ok(after.hp) && HitDice(words) == Ok(after.hd)
    requires LoopRaised(before.ac, after.ac, AcReader(words), e)
    ensures BuilderPassRaised(before, after, words, e)
    ensures ApplyBody(before, words).None?
  {
    BodyValues(before, words);
  }

  /** The builder's pass raised in the save step. */
  lemma BuilderRaisedAtSaves(before: Record, after: Record, words: seq<string>, e: PyError)
    requires after == before.(hp := after.hp, hd := after.hd, ac := after.ac, saves := after.saves)
    requires HitPoints(words) == Ok(after.hp) && HitDice(words) == Ok(after.hd)
    requires Fill(before.ac.Keys, AcReader(words)) == Some(after.ac)
    requires LoopRaised(before.saves, after.saves, SaveReader(words), e)
    ensures BuilderPassRaised(before, after, words, e)
    ensures ApplyBody(before, words).None?
  {
    BodyValues(before, words);
  }

  /** The builder's pass raised in the ability step. */
  lemma BuilderRaisedAtAbilities(before: Record, after: Record, words: seq<string>, e: PyError)
    requires after == before.(hp := after.hp, hd := after.hd, ac := after.ac, saves := after.saves, abilityScores := after.abilityScores)
    requires HitPoints(words) == Ok(after.hp) && HitDice(words) == Ok(after.hd)
    requires Fill(before.ac.Keys, AcReader(words)) == Some(after.ac)
    requires Fill(before.saves.Keys, SaveReader(words)) == Some(after.saves)
    requires LoopRaised(before.abilityScores, after.abilityScores, AbilityReader(words), e)
    ensures BuilderPassRaised(before, after, words, e)
    ensures ApplyBody(before, words).None?
  {
    BodyValues(before, words);
  }

  /** A stat block with hit points and dice and nothing else. */
  const HP_ONLY: seq<string> := ["DEFENSE", "hp", "5", "(1d8)"]

  /** On `HP_ONLY` the hit points and dice can be read. */
  lemma HpOnlyHitPoints()
    ensures HitPoints(HP_ONLY) == Ok("5") && HitDice(HP_ONLY) == Ok("1")
  {
    assert KeyIndex(HP_ONLY, "DEFENSE", "hp") == Ok(1) by {
      assert IndexOf(HP_ONLY, "DEFENSE", 0) == Ok(0);
      assert IndexOf(HP_ONLY, "hp", 0) == IndexOf(HP_ONLY, "hp", 1) == Ok(1);
    }
    assert Strip("5") == "5";
    assert HitDiceWord(HP_ONLY) == Ok("(1d8)") by {
      assert At(HP_ONLY, 3) == Ok("(1d8)");
      FirstCharAbsent("(1d8)", "each");
      ContainsIffFound("(1d8)", "each");
    }
    assert DiceCount("(1d8)") == "1" by {
      DiceCountOfDice("1", "8)");
      assert "(" + "1" + "d" + "8)" == "(1d8)";
    }
  }

  /** On `HP_ONLY` no armor-class key and no ability can be read. */
  lemma HpOnlyLookupsRaise(k: string)
    ensures k in AC_KEYS ==> AcValue(HP_ONLY, k) == Err(ValueError)
    ensures AbilityValue(HP_ONLY, k) == Err(ValueError)
  {
    MissingAnchor(HP_ONLY, "STATISTICS", k);
    if k in AC_KEYS {
      assert k !in HP_ONLY[0..];
      KeyFollowsAnchor(HP_ONLY, "DEFENSE", k, 0);
    }
  }

  /** On `HP_ONLY` the creature's order raises a `ValueError` at the abilities
      and leaves every other field as it was. */
  lemma CreatureOnHpOnly(before: Record)
    requires Shaped(before)
    ensures forall a, ea | CreaturePassRaised(before, a, HP_ONLY, ea) ::
      a == before.(abilityScores := a.abilityScores) && ea == ValueError
  {
    HpOnlyLookupsRaise("Str");
    assert Fill(before.abilityScores.Keys, AbilityReader(HP_ONLY)).None?;
    forall a, ea | CreaturePassRaised(before, a, HP_ONLY, ea)
      ensures a == before.(abilityScores := a.abilityScores) && ea == ValueError
    {
      var k :| k in before.abilityScores && AbilityReader(HP_ONLY)(k) == Err(ea);
      HpOnlyLookupsRaise(k);
    }
  }

  /** On `HP_ONLY` the builder's order stores the hit points and dice, then
      raises a `ValueError` at the armor class. */
  lemma BuilderOnHpOnly(before: Record)
    requires Shaped(before)
    ensures forall b, eb | BuilderPassRaised(before, b, HP_ONLY, eb) ::
      b == before.(hp := "5", hd := "1", ac := b.ac) && eb == ValueError
  {
    HpOnlyHitPoints();
    HpOnlyLookupsRaise("AC");
    assert Fill(before.ac.Keys, AcReader(HP_ONLY)).None?;
    forall b, eb | BuilderPassRaised(before, b, HP_ONLY, eb)
      ensures b == before.(hp := "5", hd := "1", ac := b.ac) && eb == ValueError
    {
      var j :| j in before.ac && AcReader(HP_ONLY)(j) == Err(eb);
      HpOnlyLookupsRaise(j);
    }
  }

  /** The two orders agree on every pass that completes (both store
      `ApplyBody`), but not on what a raising pass leaves: on `HP_ONLY` the
      creature's order keeps the old hit points, the builder's stores new ones. */
  lemma OrdersDiffer(before: Record)
    requires Shaped(before) && before.hp != "5"
    ensures ApplyBody(before, HP_ONLY).None?
    ensures forall a, ea, b, eb | CreaturePassRaised(before, a, HP_ONLY, ea) && BuilderPassRaised(before, b, HP_ONLY, eb) ::
      a.hp == before.hp && b.hp == "5" && a != b
  {
    CreatureOnHpOnly(before);
    BuilderOnHpOnly(before);
    HpOnlyLookupsRaise("Str");
    BodyValues(before, HP_ONLY);
  }

  /** The reading part of `_populate_from_entry_values`: hit points and dice,
      armor class, saves, then abilities, the first lookup that raises ending it. */
  method PopulateFromWords(words: seq<string>, creature: Creature) returns (o: Outcome)
    requires creature.Valid()
    modifies creature
    ensures creature.Valid()
    ensures o.Pass? <==> ApplyBody(old(creature.Snapshot()), words).Some?
    ensures o.Pass? ==> creature.Snapshot() == ApplyBody(old(creature.Snapshot()), words).value
    ensures o.Fail? ==> BuilderPassRaised(old(creature.Snapshot()), creature.Snapshot(), words, o.error)
  {
    ghost var before := creature.Snapshot();
    o := PopulateHpAndHd(words, creature);
    if o.Fail? {
      BuilderRaisedAtHitPoints(before, creature.Snapshot(), words, o.error);
      return;
    }
    o := PopulateAc(words, creature);
    if o.Fail? {
      BuilderRaisedAtAc(before, creature.Snapshot(), words, o.error);
      return;
    }
    o := PopulateSaves(words, creature);
    if o.Fail? {
      BuilderRaisedAtSaves(before, creature.Snapshot(), words, o.error);
      return;
    }
    o := PopulateAbilityScores(words, creature);
    if o.Fail? {
      BuilderRaisedAtAbilities(before, creature.Snapshot(), words, o.error);
    }
  }

  /** `_populate_from_entry_values`, from the stat-block text. */
  method PopulateFromEntryValues(body: string, creature: Creature) returns (o: Outcome)
    requires creature.Valid()
    modifies creature
    ensures creature.Valid()
    ensures o.Pass? <==> EntryWords(body).Ok? && ApplyBody(old(creature.Snapshot()), EntryWords(body).value).Some?
    ensures o.Pass? ==> creature.Snapshot() == ApplyBody(old(creature.Snapshot()), EntryWords(body).value).value
    ensures o.Fail? ==> BuilderEntryRaised(old(creature.Snapshot()), creature.Snapshot(), body, o.error)
  {
    var text := FormatEntry(body);
    if text.Err? {
      return Fail(text.error);
    }
    var words := Split(text.value, " ");
    o := PopulateFromWords(words, creature);
  }

  /** The creature `build` returns, or `None` when one of its steps raises. */
  function BuildSpec(header: string, body: string): Option<Record>
  {
    match ApplyHeader(DEFAULT_RECORD, header)
    case None => None
    case Some(named) =>
      match EntryWords(body)
      case Err(_) => None
      case Ok(words) => ApplyBody(named, words)
  }

  /** `build`: a new creature, filled by the header pass and then the entry
      pass; an exception in either becomes `Err`. */
  method Build(header: string, body: string) returns (r: Result<Creature>)
    ensures r.Ok? <==> BuildSpec(header, body).Some?
    ensures r.Ok? ==> fresh(r.value) && r.value.Valid() && r.value.Snapshot() == BuildSpec(header, body).value
  {
    var creature := new Creature();
    BuildSpecSteps(header, body);
    var o := PopulateFromHeaderValues(header, creature);
    if o.Fail? {
      return Err(o.error);
    }
    assert creature.Valid() by {
      DefaultKeys();
    }
    ghost var named := creature.Snapshot();
    o := PopulateFromEntryValues(body, creature);
    if o.Fail? {
      return Err(o.error);
    }
    return Ok(creature);
  }

  /** `BuildSpec` step by step. */
  lemma BuildSpecSteps(header: string, body: string)
    ensures var named := ApplyHeader(DEFAULT_RECORD, header);
      BuildSpec(header, body) ==
        if named.None? || EntryWords(body).Err? then None else ApplyBody(named.value, EntryWords(body).value)
  {
  }

  /** How a built creature is made: the header pass succeeded, the stat block
      formatted, and the entry pass read its words into the named record. */
  lemma BuiltFrom(header: string, body: string)
    requires BuildSpec(header, body).Some?
    ensures ApplyHeader(DEFAULT_RECORD, header).Some? && EntryWords(body).Ok?
    ensures BuildSpec(header, body) == ApplyBody(ApplyHeader(DEFAULT_RECORD, header).value, EntryWords(body).value)
  {
  }

  /** A built creature's name, rating and mythic rank come from the header
      text, and its dictionaries have their fixed keys. */
  lemma BuiltHeaderFields(header: string, body: string)
    requires BuildSpec(header, body).Some?
    ensures var c := BuildSpec(header, body).value;
      var h := ReadHeader(header);
      && h.outcome.Pass?
      && c.name == h.name.value && c.cr == h.rating.value.0 && c.mr == h.rating.value.1
      && c.ac.Keys == AC_KEYS && c.saves.Keys == SAVE_KEYS && c.abilityScores.Keys == ABILITY_KEYS
  {
    BuiltFrom(header, body);
    var named := ApplyHeader(DEFAULT_RECORD, header).value;
    var words := EntryWords(body).value;
    HeaderValues(DEFAULT_RECORD, header);
    DefaultKeys();
    BodyValues(named, words);
  }

  /** A built creature's other fields are the values read from the stat
      block's words. */
  lemma BuiltBodyFields(header: string, body: string)
    requires BuildSpec(header, body).Some?
    ensures EntryWords(body).Ok?
    ensures var c := BuildSpec(header, body).value;
      var words := EntryWords(body).value;
      && c.hp == HitPoints(words).value && c.hd == HitDice(words).value
      && (forall k :: k in AC_KEYS ==> c.ac[k] == AcValue(words, k).value)
      && (forall k :: k in SAVE_KEYS ==> c.saves[k] == SaveValue(words, k).value)
      && (forall k :: k in ABILITY_KEYS ==> c.abilityScores[k] == AbilityValue(words, k).value)
  {
    BuiltFrom(header, body);
    BodyValues(ApplyHeader(DEFAULT_RECORD, header).value, EntryWords(body).value);
  }

  /** `build` fails exactly when the header has no "CR" after its whitespace is
      normalised, or the name or rating cannot be read, or the stat block cannot
      be formatted, or one of the sixteen lookups raises. */
  lemma BuildFails(header: string, body: string)
    ensures BuildSpec(header, body).None? <==>
      || ReadHeader(header).outcome.Fail?
      || EntryWords(body).Err?
      || ApplyBody(DEFAULT_RECORD, EntryWords(body).value).None?
  {
    var named := ApplyHeader(DEFAULT_RECORD, header);
    if named.None? {
      assert BuildSpec(header, body).None?;
    } else if EntryWords(body).Err? {
      assert BuildSpec(header, body).None?;
    } else {
      var words := EntryWords(body).value;
      assert BuildSpec(header, body) == ApplyBody(named.value, words);
      HeaderValues(DEFAULT_RECORD, header);
      BodyNeedsKeysOnly(named.value, DEFAULT_RECORD, words);
    }
  }

  /** Whether an entry pass completes depends on the words and the key sets only. */
  lemma BodyNeedsKeysOnly(a: Record, b: Record, words: seq<string>)
    requires a.ac.Keys == b.ac.Keys && a.saves.Keys == b.saves.Keys && a.abilityScores.Keys == b.abilityScores.Keys
    ensures ApplyBody(a, words).Some? <==> ApplyBody(b, words).Some?
  {
    BodyValues(a, words);
    BodyValues(b, words);
  }

  /** A built creature whose rating text has no 'M' has mythic rank "0". */
  lemma BuiltMythicRank(header: string, body: string)
    requires BuildSpec(header, body).Some?
    requires 'M' !in SplitHeader(header).value.1
    ensures BuildSpec(header, body).value.mr == "0"
  {
    BuiltHeaderFields(header, body);
    HeaderFields(header);
  }
}
