/** `DictCreatureBuilder`: a creature from a dictionary of named attributes. */
module DictBuilder {
  import opened Text
  import opened Creatures

  /** The keys `build` looks up. */
  const SCALAR_KEYS: set<string> := {"CR", "name", "hp", "HD"}
  const DICT_KEYS: set<string> := SCALAR_KEYS + AC_KEYS + SAVE_KEYS + ABILITY_KEYS

  /** `dict_[key]`. */
  function Lookup(d: map<string, string>, key: string): (r: Result<string>)
    ensures r.Ok? <==> key in d
    ensures r.Ok? ==> r.value == d[key]
    ensures r.Err? ==> r.error == KeyError
  {
    if key in d then Ok(d[key]) else Err(KeyError)
  }

  /** The creature the dictionary describes, or `None` when a key is missing:
      rating, name, hit points and hit dice from "CR", "name", "hp" and "HD",
      each armor class, save and ability score from the key of the same name;
      the mythic rank keeps its default. */
  function DictRecord(d: map<string, string>): Option<Record>
  {
    if DICT_KEYS <= d.Keys then
      Some(DEFAULT_RECORD.(
        cr := d["CR"], name := d["name"], hp := d["hp"], hd := d["HD"],
        ac := map k | k in AC_KEYS :: d[k],
        saves := map k | k in SAVE_KEYS :: d[k],
        abilityScores := map k | k in ABILITY_KEYS :: d[k]))
    else
      None
  }

  /** Building succeeds exactly when all sixteen keys are present; the result
      has the fixed key sets, the default mythic rank, and every field copied
      from its key. */
  lemma DictFields(d: map<string, string>)
    ensures DictRecord(d).Some? <==> DICT_KEYS <= d.Keys
    ensures DictRecord(d).Some? ==>
      var r := DictRecord(d).value;
      && Shaped(r) && r.mr == DEFAULT_RECORD.mr
      && r.cr == d["CR"] && r.name == d["name"] && r.hp == d["hp"] && r.hd == d["HD"]
      && (forall k :: k in AC_KEYS ==> r.ac[k] == d[k])
      && (forall k :: k in SAVE_KEYS ==> r.saves[k] == d[k])
      && (forall k :: k in ABILITY_KEYS ==> r.abilityScores[k] == d[k])
  {
  }

  /** Keys outside the sixteen are ignored. */
  lemma DictIgnoresExtraKeys(d: map<string, string>, e: map<string, string>)
    requires forall k :: k in DICT_KEYS ==> (k in d <==> k in e) && (k in d ==> d[k] == e[k])
    ensures DictRecord(d) == DictRecord(e)
  {
    if DICT_KEYS <= d.Keys {
      var a := DictRecord(d).value;
      var b := DictRecord(e).value;
      assert a.ac == b.ac;
      assert a.saves == b.saves;
      assert a.abilityScores == b.abilityScores;
    }
  }

  /** A creature's fields as a dictionary with the keys `build` reads. */
  function AsDict(r: Record): (d: map<string, string>)
    requires Shaped(r)
    ensures d.Keys == DICT_KEYS
  {
    map["CR" := r.cr, "name" := r.name, "hp" := r.hp, "HD" := r.hd] + r.ac + r.saves + r.abilityScores
  }

  /** A creature with the default mythic rank is rebuilt from its own dictionary. */
  lemma DictRoundTrip(r: Record)
    requires Shaped(r) && r.mr == DEFAULT_RECORD.mr
    ensures DictRecord(AsDict(r)) == Some(r)
  {
    var d := AsDict(r);
    var b := DictRecord(d).value;
    KeySetsDisjoint();
    assert b.ac == r.ac;
    assert b.saves == r.saves;
    assert b.abilityScores == r.abilityScores;
  }

  /** No key names two different attributes. */
  lemma KeySetsDisjoint()
    ensures SCALAR_KEYS !! AC_KEYS && SCALAR_KEYS !! SAVE_KEYS && SCALAR_KEYS !! ABILITY_KEYS
    ensures AC_KEYS !! SAVE_KEYS && AC_KEYS !! ABILITY_KEYS && SAVE_KEYS !! ABILITY_KEYS
  {
  }

  /** A missing key makes building fail. */
  lemma MissingKey(d: map<string, string>, k: string)
    requires k in DICT_KEYS && k !in d
    ensures DictRecord(d).None?
  {
  }

  /** Maps holding exactly the values of their keys in `d`, with the scalar
      fields, make up the record the dictionary describes. */
  lemma DictRecordIs(d: map<string, string>, ac: map<string, string>, saves: map<string, string>, abilities: map<string, string>)
    requires "CR" in d && "name" in d && "hp" in d && "HD" in d
    requires ac.Keys == AC_KEYS && saves.Keys == SAVE_KEYS && abilities.Keys == ABILITY_KEYS
    requires ac.Keys <= d.Keys && saves.Keys <= d.Keys && abilities.Keys <= d.Keys
    requires forall k :: k in ac ==> ac[k] == d[k]
    requires forall k :: k in saves ==> saves[k] == d[k]
    requires forall k :: k in abilities ==> abilities[k] == d[k]
    ensures DictRecord(d) == Some(DEFAULT_RECORD.(cr := d["CR"], name := d["name"], hp := d["hp"], hd := d["HD"],
                                                 ac := ac, saves := saves, abilityScores := abilities))
  {
    assert DICT_KEYS <= d.Keys;
    var b := DictRecord(d).value;
    assert b.ac == ac;
    assert b.saves == saves;
    assert b.abilityScores == abilities;
  }

  /** Some key of a group the builder reads is missing: building fails. */
  lemma MissingFrom(d: map<string, string>, keys: set<string>)
    requires keys <= DICT_KEYS && !(keys <= d.Keys)
    ensures DictRecord(d).None?
  {
  }

  /** One `for key in ...keys(): ...[key] = dict_[key]` loop. */
  method CopyKeys(m: map<string, string>, d: map<string, string>) returns (m': map<string, string>, o: Outcome)
    ensures m'.Keys == m.Keys
    ensures o.Pass? <==> m.Keys <= d.Keys
    ensures o.Pass? ==> forall k :: k in m ==> m'[k] == d[k]
    ensures o.Fail? ==> o.error == KeyError && exists k :: k in m && k !in d
  {
    m', o := FillValues(m, k => Lookup(d, k));
  }

  /** The three key loops of `build`, in order; a missing key ends them. */
  method CopyDicts(d: map<string, string>, creature: Creature) returns (o: Outcome)
    requires creature.Valid()
    modifies creature
    ensures creature.Valid()
    ensures creature.Snapshot() == old(creature.Snapshot()).(ac := creature.ac, saves := creature.saves, abilityScores := creature.abilityScores)
    ensures o.Pass? <==> AC_KEYS <= d.Keys && SAVE_KEYS <= d.Keys && ABILITY_KEYS <= d.Keys
    ensures o.Pass? ==> forall k :: k in creature.ac ==> creature.ac[k] == d[k]
    ensures o.Pass? ==> forall k :: k in creature.saves ==> creature.saves[k] == d[k]
    ensures o.Pass? ==> forall k :: k in creature.abilityScores ==> creature.abilityScores[k] == d[k]
    ensures o.Fail? ==> o.error == KeyError
  {
    creature.ac, o := CopyKeys(creature.ac, d);
    if o.Fail? {
      return;
    }
    creature.saves, o := CopyKeys(creature.saves, d);
    if o.Fail? {
      return;
    }
    creature.abilityScores, o := CopyKeys(creature.abilityScores, d);
  }

  /** The four scalar look-ups of `build`, each assigned as soon as it is
      found; a missing key raises `KeyError` and ends them. */
  method CopyScalars(d: map<string, string>, creature: Creature) returns (o: Outcome)
    modifies creature
    ensures creature.Snapshot() == old(creature.Snapshot()).(cr := creature.cr, name := creature.name, hp := creature.hp, hd := creature.hd)
    ensures o.Pass? <==> SCALAR_KEYS <= d.Keys
    ensures o.Pass? ==> creature.cr == d["CR"] && creature.name == d["name"] && creature.hp == d["hp"] && creature.hd == d["HD"]
    ensures o.Fail? ==> o.error == KeyError
  {
    var v := Lookup(d, "CR");
    if v.Err? {
      return Fail(v.error);
    }
    creature.cr := v.value;
    v := Lookup(d, "name");
    if v.Err? {
      return Fail(v.error);
    }
    creature.name := v.value;
    v := Lookup(d, "hp");
    if v.Err? {
      return Fail(v.error);
    }
    creature.hp := v.value;
    v := Lookup(d, "HD");
    if v.Err? {
      return Fail(v.error);
    }
    creature.hd := v.value;
    return Pass;
  }

  /** `build`: a fresh creature; the four scalar fields are looked up in order,
      then each dictionary is filled by a key loop; a missing key raises
      `KeyError`. */
  method Build(d: map<string, string>) returns (r: Result<Creature>)
    ensures r.Ok? <==> DictRecord(d).Some?
    ensures r.Err? ==> r.error == KeyError
    ensures r.Ok? ==> fresh(r.value) && r.value.Valid() && r.value.Snapshot() == DictRecord(d).value
  {
    var creature := new Creature();
    var o := CopyScalars(d, creature);
    if o.Fail? {
      MissingFrom(d, SCALAR_KEYS);
      return Err(o.error);
    }
    assert creature.Valid();
    o := CopyDicts(d, creature);
    if o.Fail? {
      if !(AC_KEYS <= d.Keys) {
        MissingFrom(d, AC_KEYS);
      } else if !(SAVE_KEYS <= d.Keys) {
        MissingFrom(d, SAVE_KEYS);
      } else {
        MissingFrom(d, ABILITY_KEYS);
      }
      return Err(o.error);
    }
    DictRecordIs(d, creature.ac, creature.saves, creature.abilityScores);
    return Ok(creature);
  }
}
