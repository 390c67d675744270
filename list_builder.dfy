/** `ListCreatureBuilder`: a creature from a list of sixteen attribute strings
    in a fixed order. */
module ListBuilder {
  import opened Text
  import opened Creatures

  /** The creature the list describes: position 0 is the rating, 1 the name,
      2 the hit points, 3 the hit dice, 4-6 the armor classes, 7-9 the saves
      and 10-15 the ability scores; the mythic rank keeps its default. */
  function ListRecord(items: seq<string>): (r: Record)
    requires |items| >= 16
    ensures r.mr == DEFAULT_RECORD.mr
    ensures Shaped(r)
  {
    var d := DEFAULT_RECORD;
    d.(
      cr := items[0], name := items[1], hp := items[2], hd := items[3],
      ac := d.ac["AC" := items[4]]["touch" := items[5]]["flat-footed" := items[6]],
      saves := d.saves["Fort" := items[7]]["Ref" := items[8]]["Will" := items[9]],
      abilityScores := d.abilityScores["Str" := items[10]]["Dex" := items[11]]["Con" := items[12]]
                                      ["Int" := items[13]]["Wis" := items[14]]["Cha" := items[15]])
  }

  /** A creature's sixteen attributes, read back in list order. */
  function Attributes(r: Record): (a: seq<string>)
    requires Shaped(r)
    ensures |a| == 16
  {
    [r.cr, r.name, r.hp, r.hd,
     r.ac["AC"], r.ac["touch"], r.ac["flat-footed"],
     r.saves["Fort"], r.saves["Ref"], r.saves["Will"],
     r.abilityScores["Str"], r.abilityScores["Dex"], r.abilityScores["Con"],
     r.abilityScores["Int"], r.abilityScores["Wis"], r.abilityScores["Cha"]]
  }

  /** Reading a built creature back gives the first sixteen items; the rest of
      the list is ignored. */
  lemma ListRoundTrip(items: seq<string>)
    requires |items| >= 16
    ensures Attributes(ListRecord(items)) == items[..16]
  {
  }

  /** Lists that agree on their first sixteen items build the same creature. */
  lemma ListIgnoresTail(items: seq<string>, rest: seq<string>)
    requires |items| == 16
    ensures ListRecord(items + rest) == ListRecord(items)
  {
    assert (items + rest)[..16] == items;
  }

  /** A creature whose mythic rank is the default is rebuilt from its own
      attribute list. */
  lemma RecordRoundTrip(r: Record)
    requires Shaped(r)
    requires r.mr == DEFAULT_RECORD.mr
    ensures ListRecord(Attributes(r)) == r
  {
    var b := ListRecord(Attributes(r));
    assert b.ac == r.ac;
    assert b.saves == r.saves;
    assert b.abilityScores == r.abilityScores;
  }

  /** The default record with the list's items assigned key by key is the
      record the list describes. */
  lemma ListRecordIs(items: seq<string>, d: Record, ac: map<string, string>, saves: map<string, string>, abilities: map<string, string>)
    requires |items| >= 16 && d == DEFAULT_RECORD
    requires ac == d.ac["AC" := items[4]]["touch" := items[5]]["flat-footed" := items[6]]
    requires saves == d.saves["Fort" := items[7]]["Ref" := items[8]]["Will" := items[9]]
    requires abilities == d.abilityScores["Str" := items[10]]["Dex" := items[11]]["Con" := items[12]]
                                         ["Int" := items[13]]["Wis" := items[14]]["Cha" := items[15]]
    ensures ListRecord(items) == d.(cr := items[0], name := items[1], hp := items[2], hd := items[3],
                                    ac := ac, saves := saves, abilityScores := abilities)
    ensures Shaped(ListRecord(items))
  {
  }

  /** `build`: a fresh creature whose fields are assigned from the list one by
      one; a list shorter than sixteen raises `IndexError`. */
  method Build(items: seq<string>) returns (r: Result<Creature>)
    ensures r.Ok? <==> |items| >= 16
    ensures r.Err? ==> r.error == IndexError
    ensures r.Ok? ==> fresh(r.value) && r.value.Valid() && r.value.Snapshot() == ListRecord(items)
  {
    if |items| < 16 {
      return Err(IndexError);
    }
    var creature := new Creature();
    ghost var d := creature.Snapshot();
    creature.cr := items[0];
    creature.name := items[1];
    creature.hp := items[2];
    creature.hd := items[3];
    var ac := creature.ac;
    ac := ac["AC" := items[4]];
    ac := ac["touch" := items[5]];
    ac := ac["flat-footed" := items[6]];
    creature.ac := ac;
    var saves := creature.saves;
    saves := saves["Fort" := items[7]];
    saves := saves["Ref" := items[8]];
    saves := saves["Will" := items[9]];
    creature.saves := saves;
    var abilities := creature.abilityScores;
    abilities := abilities["Str" := items[10]];
    abilities := abilities["Dex" := items[11]];
    abilities := abilities["Con" := items[12]];
    abilities := abilities["Int" := items[13]];
    abilities := abilities["Wis" := items[14]];
    abilities := abilities["Cha" := items[15]];
    creature.abilityScores := abilities;
    assert creature.Snapshot() == d.(cr := items[0], name := items[1], hp := items[2], hd := items[3], ac := ac, saves := saves, abilityScores := abilities);
    ListRecordIs(items, d, ac, saves, abilities);
    return Ok(creature);
  }
}
