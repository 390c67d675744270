# pathfinder-rpg-utils in Dafny

A model of the core of pathfinder-rpg-utils, a set of Python 2 tools for the
Pathfinder role-playing game, with proofs about it. The model covers:

- **The bestiary stat-block pipeline.** `creature.py` cleans the text of a
  d20pfsrd.com bestiary page and reads a creature out of it:
  - `check_text_for_spaces` puts spaces around section keywords;
  - `format_creature_entry` replaces characters, spaces the keywords and
    collapses whitespace;
  - `format_creature_name` re-cases the name;
  - `get_cr_and_mr_from_text` reads the challenge rating and the mythic rank;
  - the `Creature` class fills its fields from the header text and from the
    stat-block words.
- **The three creature builders:**
  - the d20pfsrd builder, which runs the same steps as a separate class;
  - the list builder, which takes sixteen strings in a fixed order;
  - the dict builder, which takes a dictionary keyed by attribute name.
- **The link and page filters of the bestiary crawler,** in its current
  version and in its first prototype.
- **The character-sheet arithmetic:**
  - a class investment's hit points, base attack bonus and saving throws;
  - the dictionary of values a character-sheet template is filled with.

Modules, one per file:

| module | file | models |
|---|---|---|
| `Text` | `text.dfy` | Python 2 built-ins the code relies on, with their edge cases; exceptions are `Err` results |
| `StatText` | `stat_text.dfy` | the free functions of `creature.py` (repeated verbatim at the top of `d20pfsrd.py`) |
| `Creatures` | `creature.dfy` | the field extractors, the header and entry passes, and the `Creature` class |
| `D20pfsrd` | `d20pfsrd_builder.dfy` | `D20PFSRDCreatureBuilder` |
| `ListBuilder`, `DictBuilder` | `list_builder.dfy`, `dict_builder.dfy` | the list and dictionary builders |
| `Crawler`, `CrawlerPrototype` | `crawler.dfy`, `crawler_prototype.dfy` | the two crawler scripts |
| `ClassInstances`, `Characters` | `class_instance.dfy`, `character.dfy` | `PFClassInstance` and `PFCharacter` |

How the source's form maps to Dafny:

- Classes whose methods update fields are Dafny classes with `modifies`
  clauses.
- Each method is proved against a function on values, and the properties of
  that function are lemmas:
  - `Creature.Snapshot()` is a `Record` value;
  - the d20pfsrd builder's result is specified by `BuildSpec`;
  - the template dictionary is specified by `Template`.
- Python exceptions (`ValueError` from `list.index`, `IndexError` from
  indexing, `KeyError` from a dictionary lookup) are `Result` and `Outcome`
  values.
- Every raising path is modelled as it is written. When an entry or header
  pass raises, its contract names the error and the record it leaves
  (`Creatures.CreaturePassRaised`, `D20pfsrd.BuilderPassRaised`,
  `Creatures.HeaderRaised`). The steps before the raising one have stored their
  values. A key loop that raises leaves each key with its old or its new value.
  The later steps have changed nothing.

The proofs bring out some behaviours of the code as written:

- `check_text_for_spaces` changes the text even when a keyword does not occur:
  `find` returns -1 and the code pads around index `len(word) - 1`
  (`AbsentKeywordPadsText`).
- The `Reflex` → `Ref` replacement can itself spell a new "Reflex"
  (`ReflexRewriteCanSpellReflex`).
- In `get_cr_and_mr_from_text` the "CR " test runs before '*' is removed, so
  "CR* 1" reads as the empty rating (`StarredRatingIsEmpty`).
- When the header text opens with "CR", `info_text[:info_text.index('CR')-1]`
  slices up to index -1, so the name is the whole text without its last
  character: "CR 1" gives the name "CR " (`LeadingRatingCut`).
- The creature's own entry pass reads abilities, hit points, armor class and
  saves in that order. The d20pfsrd builder reads hit points, armor class,
  saves and abilities. A successful pass gives the same record either way.
  When a lookup fails, the two can leave different records. Take a stat block
  with hit points and dice but no "STATISTICS" section. The creature keeps its
  old hit points, while the builder stores the new ones (`D20pfsrd.OrdersDiffer`).

## Model

| member | source | states |
|---|---|---|
| `StatText.InsertText` | data-mining/bestiary/core/creature.py:133-142 | the insertion lengthens the text by the inserted part, which sits at the clamped index; taking it out again restores the original |
| `StatText.DeleteInsertedSpaces` | data-mining/bestiary/core/creature.py:133-142 | single-space insertions made in turn can all be undone, giving back the text |
| `StatText.PadKeyword` | data-mining/bestiary/core/creature.py:35-42 | one turn of the keyword loop: pad after the first occurrence at or after `start`, then re-find it and pad before it; an out-of-range index is `IndexError` |
| `StatText.CheckTextForSpaces` | data-mining/bestiary/core/creature.py:22-43 | the loop's result is the keyword-by-keyword spacing of the text, with the loop invariant tying the rebound `_text` to the keywords still to do |
| `StatText.SpacingIsInsertion` | data-mining/bestiary/core/creature.py:34-42 | a successful spacing pass inserts single spaces at no more than two positions per keyword |
| `StatText.SpacingOnlyInsertsSpaces` | data-mining/bestiary/core/creature.py:22-43 | the spacing pass only inserts spaces, at most two per keyword, and deleting them gives back its input |
| `StatText.BorderedTextUnchanged` | data-mining/bestiary/core/creature.py:34-42 | a text whose keywords already have spaces on both sides comes back unchanged |
| `StatText.KeywordStepBorders` | data-mining/bestiary/core/creature.py:35-42 | after one turn, the first occurrence of a space-free keyword that is neither at index 0 nor at the end has a space on both sides |
| `StatText.AbsentKeywordPadsText` | data-mining/bestiary/core/creature.py:35-42 | an absent keyword still causes padding: spacing "abc" for "DR" gives "a b c" |
| `StatText.SquashInsertSpaces` | data-mining/bestiary/core/creature.py:63-64 | apart from whitespace, the spacing passes leave the text's characters unchanged |
| `StatText.SquashCollapse` | data-mining/bestiary/core/creature.py:66 | apart from whitespace, collapsing whitespace runs leaves the text's characters unchanged |
| `StatText.ReplaceCommasSpaces` | data-mining/bestiary/core/creature.py:61 | after the comma replacement, every comma is followed by whitespace |
| `StatText.ReplaceParensSpaces` | data-mining/bestiary/core/creature.py:62 | after the parenthesis replacement, every left parenthesis follows whitespace |
| `StatText.MassageSpacing` | data-mining/bestiary/core/creature.py:54-62 | the replacements leave ASCII text with no '*', commas followed by whitespace and left parentheses preceded by it |
| `StatText.FormatEntryNormalForm` | data-mining/bestiary/core/creature.py:46-67 | a formatted entry is ASCII, has no '*', has single spaces as its only whitespace, keeps its comma and parenthesis spacing, and apart from spaces has the characters of the replaced text |
| `StatText.ReflexRewriteCanSpellReflex` | data-mining/bestiary/core/creature.py:59 | one pass of the "Reflex" replacement can leave a "Reflex" in the text |
| `StatText.CapWordsPointwise` | data-mining/bestiary/core/creature.py:80 | `capwords` upper-cases the first character of each space-separated word and lower-cases the rest, moving nothing |
| `StatText.UpperAfterFirst` | data-mining/bestiary/core/creature.py:82-86 | upper-cases exactly the character after the first mark (the first character when there is none), and raises `IndexError` when that position is past the end |
| `StatText.FormatNameOk` | data-mining/bestiary/core/creature.py:70-87 | name formatting succeeds exactly when the ASCII name has a character after its first '-' and after its first '('; without a '-' or '(' it needs only to be non-empty |
| `StatText.FormatNameErrors` | data-mining/bestiary/core/creature.py:82-86 | every failure of name formatting, the empty name included, is an `IndexError` |
| `StatText.FormatNameCasing` | data-mining/bestiary/core/creature.py:70-87 | a formatted name is the ASCII name re-cased: upper case exactly at word starts and after the first '-' and '(', and the same text once lower-cased |
| `StatText.QuotientTextTruncates` | data-mining/bestiary/core/creature.py:123-127 | for one-digit operands, the four-character quotient text is "d.d" or "d.dd", and its value in hundredths is the quotient rounded down |
| `StatText.FractionRoundTrip` | data-mining/bestiary/core/creature.py:119-128 | "CR x/y" reads as the truncated quotient, at most four characters long, with mythic rank "0" |
| `StatText.RatingRoundTrip` | data-mining/bestiary/core/creature.py:100-128 | a plain rating word is read back as it is, with rank "0", whether or not a space follows "CR" |
| `StatText.MythicRoundTrip` | data-mining/bestiary/core/creature.py:109-117 | "CR a/MR b" reads back as the pair (a, b) |
| `StatText.StarredRatingIsEmpty` | data-mining/bestiary/core/creature.py:103-107 | because '*' is removed only after the "CR " test, "CR* w" reads as the empty rating with rank "0" |
| `StatText.NoMythicRankIsZero` | data-mining/bestiary/core/creature.py:100-130 | a rating text without 'M' that can be read has mythic rank "0" |
| `StatText.PlainRatingRank` | data-mining/bestiary/core/creature.py:118-130 | when the normalised text has no "MR", a readable rating has mythic rank "0" |
| `Text.CollapseSpaces` | data-mining/bestiary/core/creature.py:66 | the only whitespace left is ' ', no two spaces are adjacent, and the first character is kept (or made a space) |
| `Text.CollapseKeepsChars` | data-mining/bestiary/core/creature.py:66 | collapsing whitespace brings in no character except the space |
| `Text.AsciiOnly` | data-mining/bestiary/core/creature.py:77 | the result is no longer than the input, is all ASCII, and is the input itself when that is ASCII |
| `Text.IndexOf` | data-mining/bestiary/core/creature.py:199 | `list.index` returns the first position of the value at or after the start, or raises `ValueError` exactly when the value is absent there |
| `Text.ReplaceRemovesChar` | data-mining/bestiary/core/creature.py:57 | replacing a character by nothing removes every occurrence of it |
| `Text.JoinSplit` | data-mining/bestiary/core/creature.py:236 | joining the pieces of a split with the same separator gives the text back |
| `Text.RStrip` | data-mining/bestiary/crawler.py:77 | the result is a prefix of the line, ends in a non-space, and only whitespace was cut |
| `Creatures.KeyFollowsAnchor` | data-mining/bestiary/core/creature.py:215 | an anchored lookup succeeds exactly when the key occurs at or after the first anchor, then finds its first occurrence there, and fails with `ValueError` otherwise |
| `Creatures.MissingAnchor` | data-mining/bestiary/core/creature.py:199 | with no anchor word, every lookup raises `ValueError` |
| `Creatures.RemoveIsWithout` | data-mining/bestiary/core/creature.py:217-218 | `replace(c, '')` deletes exactly the `c` characters and keeps the others in order |
| `Creatures.AcText` | data-mining/bestiary/core/creature.py:216-218 | an armor class value has no ',' or ';' |
| `Creatures.SaveText` | data-mining/bestiary/core/creature.py:308-311 | a save value has no ',', ';' or '+' |
| `Creatures.SaveTextOfSigned` | data-mining/bestiary/core/creature.py:308-311 | a save written "+n," is stored as "n" |
| `Creatures.AbilityText` | data-mining/bestiary/core/creature.py:200-206 | an ability score is "-1", or the cleaned word when that is non-empty and has no '-' |
| `Creatures.ExtractedValues` | data-mining/bestiary/core/creature.py:214-219 | armor class and save lookups store the cleaned word right after the first key that follows "DEFENSE" |
| `Creatures.HitDiceWord` | data-mining/bestiary/core/creature.py:283-288 | the hit-dice word is two words after "hp", or three when that word contains "each" |
| `Creatures.DiceCountOfDice` | data-mining/bestiary/core/creature.py:291-293 | "(NdM" gives the count N |
| `Creatures.DiceCountOfCount` | data-mining/bestiary/core/creature.py:294-296 | "(N" gives the count N |
| `Creatures.HeaderCut` | data-mining/bestiary/core/creature.py:256-261 | the header split fails exactly when the normalised text has no "CR"; the rating part starts with "CR"; when "CR" is not at the start, the name has no "CR" and name, one dropped character and rating make up the text; when it is, the rating is the whole text and the name is the text without its last character |
| `Creatures.CutAtFirst` | data-mining/bestiary/core/creature.py:260-261 | cutting at the first "CR" gives a rating part that starts with it; when "CR" is not at the start, the name has no "CR" and name, one dropped character and rating make up the text; when it is, the rating is the whole text and the name is the text without its last character |
| `Creatures.LeadingRatingCut` | data-mining/bestiary/core/creature.py:260-261 | a header that opens with "CR" keeps it in the name: "CR 1" gives the name "CR " and the rating part "CR 1" |
| `Creatures.ReadHeader` | data-mining/bestiary/core/creature.py:256-267 | the header pass succeeds exactly when it reaches a rating, and a rating is only read after a name |
| `Creatures.HeaderFields` | data-mining/bestiary/core/creature.py:256-267 | a header without "CR" fails with `ValueError` and reads nothing; a read name is the re-cased ASCII name; a rating part without 'M' gives rank "0" |
| `Creatures.Fill` | data-mining/bestiary/core/creature.py:198-206 | a key loop completes exactly when every key's value can be read, and then stores exactly those values under the same keys |
| `Creatures.FillValues` | data-mining/bestiary/core/creature.py:214-219 | the key loop keeps the key set; it passes exactly when every value can be read and then stores them all; a failure is some key's error; every key holds its old or its new value |
| `Creatures.EntryWords` | data-mining/bestiary/core/creature.py:235-236 | splitting succeeds exactly when formatting does, and the words joined by spaces are the formatted text |
| `Creatures.BodyValues` | data-mining/bestiary/core/creature.py:238-241 | an entry pass completes exactly when all sixteen lookups succeed, then stores the values read and keeps name, rating, rank and key sets |
| `Creatures.HeaderValues` | data-mining/bestiary/core/creature.py:263-267 | a completed header pass stores the formatted name, rating and rank, and nothing else |
| `Creatures.DefaultKeys` | data-mining/bestiary/core/creature.py:156-162 | a fresh creature's dictionaries have the fixed armor class, save and ability keys |
| `Creatures.Creature.constructor` | data-mining/bestiary/core/creature.py:149-162 | a new creature has the empty name and "0" everywhere else |
| `Creatures.RaisedAtAbilities` | data-mining/bestiary/core/creature.py:238 | an ability loop that raises ends the creature's pass with only the ability scores touched, and the entry pass does not complete |
| `Creatures.RaisedAtHitPoints` | data-mining/bestiary/core/creature.py:238-239 | after the abilities are stored, a hit-point or hit-dice lookup that raises ends the pass with armor class and saves untouched |
| `Creatures.RaisedAtAc` | data-mining/bestiary/core/creature.py:238-240 | after the abilities, hit points and dice are stored, an armor-class loop that raises ends the pass with the saves untouched |
| `Creatures.RaisedAtSaves` | data-mining/bestiary/core/creature.py:238-241 | a save loop that raises, after every earlier step has stored its values, ends the pass, which does not complete |
| `Creatures.Creature.UpdateAbilities` | data-mining/bestiary/core/creature.py:192-206 | only the ability scores change; the loop completes exactly when every key can be read, and then holds the values read; a failure is some key's error, keeps the key set and leaves each key old or new |
| `Creatures.Creature.UpdateAc` | data-mining/bestiary/core/creature.py:208-219 | only the armor classes change; the loop completes exactly when every key can be read, and then holds the values read; a failure is some key's error, keeps the key set and leaves each key old or new |
| `Creatures.Creature.UpdateSaves` | data-mining/bestiary/core/creature.py:299-312 | only the saves change; the loop completes exactly when every key can be read, and then holds the values read; a failure is some key's error, keeps the key set and leaves each key old or new |
| `Creatures.Creature.UpdateHpAndHd` | data-mining/bestiary/core/creature.py:269-297 | only hp and hd change; hp is stored before the hit dice are read, so an unreadable hit-dice word keeps the new hp |
| `Creatures.Creature.UpdateHeaderValues` | data-mining/bestiary/core/creature.py:243-267 | only name, rating and rank change; the name is stored before the rating is read; the outcome is the header pass's |
| `Creatures.Creature.UpdateFromWords` | data-mining/bestiary/core/creature.py:238-241 | the four lookups in source order complete exactly when the entry pass does, leaving the record that pass specifies; when one raises, the error and the record are those `CreaturePassRaised` gives for the first failing step |
| `Creatures.Creature.UpdateEntryValues` | data-mining/bestiary/core/creature.py:221-241 | format, split and read: succeeds exactly when the text formats and every lookup succeeds, leaving the header fields alone; a text that cannot be formatted changes nothing, and otherwise a failure leaves what the word pass leaves |
| `Creatures.Creature.UpdateFromText` | data-mining/bestiary/core/creature.py:323-331 | the header pass then the entry pass; succeeds exactly when both do, leaving the record both passes specify; a failing header pass keeps only the name it read, and a failing entry pass starts from the updated header fields |
| `D20pfsrd.PopulateAbilityScores` | data-mining/bestiary/core/builders/creature/d20pfsrd.py:149-165 | only the ability scores change; they hold the values read exactly when every key can be read; a failure is some key's error, keeps the key set and leaves each key old or new |
| `D20pfsrd.PopulateAc` | data-mining/bestiary/core/builders/creature/d20pfsrd.py:167-179 | only the armor classes change; they hold the values read exactly when every key can be read; a failure is some key's error, keeps the key set and leaves each key old or new |
| `D20pfsrd.PopulateSaves` | data-mining/bestiary/core/builders/creature/d20pfsrd.py:257-271 | only the saves change; they hold the values read exactly when every key can be read; a failure is some key's error, keeps the key set and leaves each key old or new |
| `D20pfsrd.PopulateHpAndHd` | data-mining/bestiary/core/builders/creature/d20pfsrd.py:226-255 | only hp and hd change; hp is stored before the hit dice are read, so an unreadable hit-dice word keeps the new hp; the outcome is the first lookup's error, or a pass |
| `D20pfsrd.PopulateFromHeaderValues` | data-mining/bestiary/core/builders/creature/d20pfsrd.py:181-204 | only name, rating and rank change; it succeeds exactly when the header pass does, leaving that pass's record; a failure is the header pass's error and keeps only the name it read |
| `D20pfsrd.PopulateFromWords` | data-mining/bestiary/core/builders/creature/d20pfsrd.py:221-224 | hit points, armor class, saves, then abilities: succeeds exactly when the entry pass does, leaving the same record as the creature's own order; when one raises, the error and the record are those `BuilderPassRaised` gives for the first failing step |
| `D20pfsrd.PopulateFromEntryValues` | data-mining/bestiary/core/builders/creature/d20pfsrd.py:206-224 | succeeds exactly when the text formats and every lookup succeeds, leaving the record that pass specifies; a text that cannot be formatted changes nothing, and otherwise a failure leaves what the word pass leaves |
| `D20pfsrd.BuilderRaisedAtHitPoints` | data-mining/bestiary/core/builders/creature/d20pfsrd.py:221 | a hit-point or hit-dice lookup that raises ends the builder's pass with the three dictionaries untouched |
| `D20pfsrd.BuilderRaisedAtAc` | data-mining/bestiary/core/builders/creature/d20pfsrd.py:221-222 | after hit points and dice are stored, an armor-class loop that raises ends the pass with saves and abilities untouched |
| `D20pfsrd.BuilderRaisedAtSaves` | data-mining/bestiary/core/builders/creature/d20pfsrd.py:221-223 | after hit points, dice and armor class are stored, a save loop that raises ends the pass with the abilities untouched |
| `D20pfsrd.BuilderRaisedAtAbilities` | data-mining/bestiary/core/builders/creature/d20pfsrd.py:221-224 | an ability loop that raises, after every earlier step has stored its values, ends the pass, which does not complete |
| `D20pfsrd.HpOnlyHitPoints` | data-mining/bestiary/core/creature.py:269-297 | on a stat block holding only "DEFENSE hp 5 (1d8)", the hit points read as "5" and the hit dice as "1" |
| `D20pfsrd.HpOnlyLookupsRaise` | data-mining/bestiary/core/creature.py:192-219 | on that stat block every ability lookup and every armor-class lookup raises `ValueError` |
| `D20pfsrd.CreatureOnHpOnly` | data-mining/bestiary/core/creature.py:238-241 | on that stat block the creature's order raises `ValueError` at the abilities and leaves every other field as it was |
| `D20pfsrd.BuilderOnHpOnly` | data-mining/bestiary/core/builders/creature/d20pfsrd.py:221-224 | on that stat block the builder's order stores hit points "5" and hit dice "1", then raises `ValueError` at the armor class |
| `D20pfsrd.OrdersDiffer` | data-mining/bestiary/core/builders/creature/d20pfsrd.py:221-224 | the entry pass does not complete on that stat block, and the two orders leave different records: the creature keeps its old hit points, the builder stores "5" |
| `D20pfsrd.Build` | data-mining/bestiary/core/builders/creature/d20pfsrd.py:273-284 | a fresh, well-keyed creature exactly when both passes succeed, holding the specified record; otherwise an error |
| `D20pfsrd.BuildSpecSteps` | data-mining/bestiary/core/builders/creature/d20pfsrd.py:280-283 | a build is the header pass on a fresh creature, then the entry pass on the named record |
| `D20pfsrd.BuiltFrom` | data-mining/bestiary/core/builders/creature/d20pfsrd.py:280-284 | a built creature comes from a successful header pass and a formatted stat block |
| `D20pfsrd.BuiltHeaderFields` | data-mining/bestiary/core/builders/creature/d20pfsrd.py:197-204 | a built creature's name, rating and rank are those read from the header, and its dictionaries have the fixed keys |
| `D20pfsrd.BuiltBodyFields` | data-mining/bestiary/core/builders/creature/d20pfsrd.py:218-224 | a built creature's hp, hd and sixteen dictionary values are those read from the stat-block words |
| `D20pfsrd.BuildFails` | data-mining/bestiary/core/builders/creature/d20pfsrd.py:273-284 | a build fails exactly when the header cannot be read, the stat block cannot be formatted, or a lookup raises |
| `D20pfsrd.BodyNeedsKeysOnly` | data-mining/bestiary/core/builders/creature/d20pfsrd.py:221-224 | whether an entry pass completes depends only on the words and the key sets |
| `D20pfsrd.BuiltMythicRank` | data-mining/bestiary/core/builders/creature/d20pfsrd.py:202-204 | a built creature whose rating part has no 'M' has mythic rank "0" |
| `ListBuilder.ListRecord` | data-mining/bestiary/core/builders/creature/list.py:19-35 | a list's record keeps the default rank and has the fixed key sets |
| `ListBuilder.Attributes` | data-mining/bestiary/core/builders/creature/list.py:20-35 | a creature reads back as sixteen attributes |
| `ListBuilder.ListRoundTrip` | data-mining/bestiary/core/builders/creature/list.py:12-36 | reading a built creature back gives the list's first sixteen items |
| `ListBuilder.ListIgnoresTail` | data-mining/bestiary/core/builders/creature/list.py:20-35 | items after the sixteenth do not matter |
| `ListBuilder.RecordRoundTrip` | data-mining/bestiary/core/builders/creature/list.py:12-36 | a creature with the default rank is rebuilt from its own attribute list |
| `ListBuilder.ListRecordIs` | data-mining/bestiary/core/builders/creature/list.py:19-35 | the fresh creature with the sixteen items assigned key by key is the list's record |
| `ListBuilder.Build` | data-mining/bestiary/core/builders/creature/list.py:12-36 | a fresh creature holding the list's record exactly when the list has at least sixteen items, otherwise `IndexError` |
| `DictBuilder.Lookup` | data-mining/bestiary/core/builders/creature/dict.py:24-27 | a lookup succeeds exactly when the key is present, and otherwise raises `KeyError` |
| `DictBuilder.DictFields` | data-mining/bestiary/core/builders/creature/dict.py:15-34 | building succeeds exactly when all sixteen keys are present, and then copies every field from its key and keeps the default rank |
| `DictBuilder.DictIgnoresExtraKeys` | data-mining/bestiary/core/builders/creature/dict.py:24-33 | keys other than the sixteen do not matter |
| `DictBuilder.AsDict` | data-mining/bestiary/core/builders/creature/dict.py:24-33 | a creature's dictionary has exactly the keys the builder reads |
| `DictBuilder.DictRoundTrip` | data-mining/bestiary/core/builders/creature/dict.py:15-34 | a creature with the default rank is rebuilt from its own dictionary |
| `DictBuilder.KeySetsDisjoint` | data-mining/bestiary/core/builders/creature/dict.py:24-33 | no dictionary key feeds two different attributes |
| `DictBuilder.MissingKey` | data-mining/bestiary/core/builders/creature/dict.py:24-33 | one missing key makes the build fail |
| `DictBuilder.MissingFrom` | data-mining/bestiary/core/builders/creature/dict.py:28-33 | a missing key of any group makes the build fail |
| `DictBuilder.DictRecordIs` | data-mining/bestiary/core/builders/creature/dict.py:22-33 | a fresh creature with the scalar fields and three maps copied from the dictionary is the dictionary's record |
| `DictBuilder.CopyKeys` | data-mining/bestiary/core/builders/creature/dict.py:28-29 | one key loop keeps the key set; it completes exactly when every key is in the dictionary and then copies each value; otherwise `KeyError` for a missing key |
| `DictBuilder.CopyScalars` | data-mining/bestiary/core/builders/creature/dict.py:24-27 | only the four scalar fields change; they are copied exactly when all four keys are present, otherwise `KeyError` |
| `DictBuilder.CopyDicts` | data-mining/bestiary/core/builders/creature/dict.py:28-33 | only the three dictionaries change; every value is copied exactly when all their keys are present, otherwise `KeyError` |
| `DictBuilder.Build` | data-mining/bestiary/core/builders/creature/dict.py:15-34 | a fresh creature holding the dictionary's record exactly when every key is present, otherwise `KeyError` |
| `Crawler.SuffixSlice` | data-mining/bestiary/crawler.py:95 | the negative slice equals a nonempty suffix exactly when the link ends with it, even when the link is shorter |
| `Crawler.IsProblemLink` | data-mining/bestiary/crawler.py:80-97 | the two early-return loops answer exactly whether the link contains a listed fragment or ends with a listed suffix |
| `Crawler.KeptPositions` | data-mining/bestiary/crawler.py:65-70 | the kept links are exactly the present hrefs that pass the filter, in input order |
| `Crawler.KeptSound` | data-mining/bestiary/crawler.py:68 | every kept link passes the filter |
| `Crawler.GetCreatureLinks` | data-mining/bestiary/crawler.py:53-70 | the loop keeps exactly the present creature-listing hrefs that are not problem links, in order |
| `Crawler.StripLines` | data-mining/bestiary/crawler.py:76-77 | each line of the array is replaced in place by its right-stripped form |
| `Crawler.StrippedLine` | data-mining/bestiary/crawler.py:77 | a stripped line is a prefix of the line, only whitespace was cut, and stripping again changes nothing |
| `Crawler.IsProblemPage` | data-mining/bestiary/crawler.py:99-122 | the answer is whether a marked footer names a listed publisher or the first title has "3pp"; a page with no title element raises `IndexError` exactly when no footer flagged it |
| `Crawler.UnmarkedFootersIgnored` | data-mining/bestiary/crawler.py:110-122 | footers without a copyright marker never flag a page, whatever publisher they name, so the title alone decides; a footer without 'Â', '(' or 'C' has no marker |
| `Crawler.PublisherWithoutMarker` | data-mining/bestiary/crawler.py:113-116 | a footer naming a publisher without a copyright marker does not flag the page |
| `Crawler.PublisherWithMarker` | data-mining/bestiary/crawler.py:113-116 | the same publisher after "(c)" does |
| `CrawlerPrototype.CreatureInfo.constructor` | data_mining/bestiary/crawler.py:11-13 | a new record has the empty name and the integer rating 0 |
| `CrawlerPrototype.CreatureInfo.UpdateNameAndCr` | data_mining/bestiary/crawler.py:15-24 | header cells are used, or data cells when there are none; a missing first cell raises before any change, a missing second cell after the name is set |
| `CrawlerPrototype.GetCreatureLinks` | data_mining/bestiary/crawler.py:40-54 | the loop keeps exactly the present creature-listing hrefs without "-TOHC" or "-tohc", in order |
| `CrawlerPrototype.KeptLinks` | data_mining/bestiary/crawler.py:49-53 | every kept link is a creature listing without either rejected fragment |
| `CrawlerPrototype.FiltersCompared` | data_mining/bestiary/crawler.py:49-52 | the prototype rejects a link the newer crawler keeps only for a "-TOHC"/"-tohc" that is not at the end; a link only the prototype keeps is a problem link for the newer crawler |
| `ClassInstances.SaveTable` | character-sheets/core/pf_class_instance.py:51-56 | the save table has exactly the class's save names |
| `ClassInstances.SaveTableValues` | character-sheets/core/pf_class_instance.py:51-56 | a flag of 1 gives the good save 2 + level/2, any other flag gives the bad save level/3, and from level 0 every save is at least the bad one |
| `ClassInstances.SavesAreFloors` | character-sheets/core/pf_class_instance.py:38-42 | the save divisions are Python 2 floor divisions, negative levels included |
| `ClassInstances.GoodAtLeastBad` | character-sheets/core/pf_class_instance.py:38-42 | from level 0 up, a good save exceeds a bad one by at least 2 |
| `ClassInstances.HitPointsClosedForm` | character-sheets/core/pf_class_instance.py:44-49 | the level-1 case agrees with the general formula, so hit points have one closed form |
| `ClassInstances.HitPointsStep` | character-sheets/core/pf_class_instance.py:48-49 | each further level adds half the hit die plus one |
| `ClassInstances.HitPointsMonotonic` | character-sheets/core/pf_class_instance.py:44-49 | with a non-negative hit die, hit points never drop as the level rises, and from level 1 they are at least the hit die |
| `ClassInstances.ClassInstance.constructor` | character-sheets/core/pf_class_instance.py:15-36 | a new investment holds the class's name and hit die, the level, and the hit points, bab and saves that investing gives |
| `ClassInstances.ClassInstance.CalculateHitPoints` | character-sheets/core/pf_class_instance.py:44-49 | only the hit points change, to the value for the hit die and level |
| `ClassInstances.ClassInstance.CalculateSavingThrows` | character-sheets/core/pf_class_instance.py:51-56 | only the saves change: the class's save table for the level is written over the old entries |
| `Characters.KeyTextInjective` | character-sheets/core/pf_character.py:79-95 | different template keys have different key texts, so no entry overwrites another |
| `Characters.ClassKeyParts` | character-sheets/core/pf_character.py:79-80 | a class key's text is "class", the position, then the field's suffix |
| `Characters.Displays` | character-sheets/core/pf_character.py:98 | one display entry per class: its name, a space and its level |
| `Characters.Character.constructor` | character-sheets/core/pf_character.py:20-32 | a new character has its name and no classes |
| `Characters.Character.AddClass` | character-sheets/core/pf_character.py:51-66 | a class whose name is present changes nothing; otherwise its investment is stored under its name and listed last, and the character stays consistent |
| `Characters.Character.GetTemplateValues` | character-sheets/core/pf_character.py:68-106 | the result is the complete template; a class without a "Fort", "Ref" or "Will" save gives `KeyError`, and a character without classes gives `IndexError` |
| `Characters.Character.WriteClasses` | character-sheets/core/pf_character.py:73-98 | the loop writes the name keys and eight entries per class under its position, plus the display entries, or gives `KeyError` exactly when a class lacks a save |
| `Characters.WriteClass` | character-sheets/core/pf_character.py:79-95 | one class's eight entries are added under its position and every other entry is kept; a missing save gives `KeyError` |
| `Characters.ClassWritten` | character-sheets/core/pf_character.py:77-98 | writing class i + 1 keeps the name keys and the earlier classes' entries |
| `Characters.DisplayStep` | character-sheets/core/pf_character.py:98 | the display entries grow by one per class |
| `Characters.AddDisplayLine` | character-sheets/core/pf_character.py:100-104 | adding the display line completes the template, or gives `IndexError` exactly when there are no classes |
| `Characters.DisplayLine` | character-sheets/core/pf_character.py:101-104 | the display line is the entries joined by ", ", a single entry alone, and `IndexError` for none |
| `Characters.TemplateComplete` | character-sheets/core/pf_character.py:100-104 | the written classes plus the display line make the complete template, and every class has its three saves |
| `Characters.AllClassesSaves` | character-sheets/core/pf_character.py:90-92 | every class whose entries were written has all three saves |

## Left out

- Fetching pages and selecting HTML elements (`parse`, `cssselect`, `text_content`) are not modelled. The operations take the texts the selectors yield: the header text, the stat-block text, href lists, footer and title texts, and table-cell texts.
- File I/O is not modelled: reading `INDEX.txt` and `indeces.txt`, and loading JSON. `StripLines` takes the lines already read. `Characters.Character.constructor` starts with no classes instead of loading them from the character's JSON file, and `PFClass` is given as a value.
- `create_db_entry`, the database and the `__main__` scripts of both crawlers are not modelled: they are network, database and console I/O.
- The prototype's `get_html_indeces` is the same loop as the newer crawler's and is modelled once, as `Crawler.StripLines`.
- The prototype's `update` is not modelled: it parses a page, prints, and catches `IOError`.
- The `except IOError` handler of `update_via_htmlelement` is not modelled. No step modelled here raises `IOError`, so any other exception ends the update as an error.
- `__repr__`, `__str__` and the unimplemented `is_valid` (which always returns `False`) are presentation or stub code and are not modelled.
- The free functions at the top of `d20pfsrd.py` repeat those of `creature.py` character for character. They are modelled once, in `StatText`.
- `StatText.QuotientTextTruncates`: `str(float(x) / float(y))` is not modelled as floating point. `QuotientText` gives its first four characters for one-digit operands, which is every input `cr_text[0]` and `cr_text[2]` can give once both parse. The one-digit case is proved to be the quotient truncated to hundredths. Rounding to the nearest double is not modelled.
- `ClassInstances.ClassInstance.constructor`: the base attack bonus is a `real`, so floating-point rounding of `base_attack * level` is not modelled.
- Python 2 dictionary iteration order is not modelled. Loops over `keys()` are proved for any order.
- `Characters.Character.GetTemplateValues`: classes are numbered in the order they were added, while Python 2 numbers them in its hash order of `classes.keys()`. Which class gets which position is therefore not claimed to match the source.
- `Creatures.SplitHeader` and `Creatures.HeaderCut`: the header's `strip()` removes the ASCII whitespace of a byte string. On a unicode string Python 2 also removes other whitespace such as u'\xa0', so a header ending in "CR 1" and a no-break space reads "1" in the source but keeps the no-break space here.
- The default level of `PFClassInstance.__init__` (`_level=1`) and of `__add_class` (`level=1`) is not modelled. `ClassInstances.ClassInstance.constructor` and `Characters.Character.AddClass` always take the level, as every call in the source passes it.
- Unicode is handled only as far as `encode('ascii', 'ignore')` and the one `u'\xe2'` replacement. Characters are treated as code points, not as the bytes of an encoding.
