/** A Pathfinder character: a name and its investments in character classes,
    flattened into the values a character-sheet template is filled with. */
module Characters {
  import opened Text
  import opened ClassInstances

  /** A template value: text, an integer, or the base attack bonus. */
  datatype Value = Str(s: string) | Int(i: int) | Num(r: real)

  /** The eight values written for each class. */
  datatype Field = ClassName | Level | HitDie | HitPoints | Fort | Ref | Will | Bab

  /** A key of the template dictionary. `KeyText` gives the text the
      dictionary is keyed by; it is injective, so no two keys here stand for
      the same dictionary entry. */
  datatype TemplateKey = NameKey | UpperNameKey | ClassKey(n: nat, field: Field) | DisplayKey

  function Suffix(f: Field): string
  {
    match f
    case ClassName => ""
    case Level => "_level"
    case HitDie => "_hit_die"
    case HitPoints => "_hit_points"
    case Fort => "_fort"
    case Ref => "_ref"
    case Will => "_will"
    case Bab => "_bab"
  }

  /** The text of a key: "name", "NAME", "display_classes", or "class", the
      class's position counted from 1, and the field's suffix. */
  function KeyText(k: TemplateKey): string
  {
    match k
    case NameKey => "name"
    case UpperNameKey => "NAME"
    case DisplayKey => "display_classes"
    case ClassKey(n, f) => "class" + NatToString(n) + Suffix(f)
  }

  /** The value the template shows for one field of an investment that has
      all three saves. */
  function FieldValue(v: Investment, f: Field): Value
    requires HasSaves(v)
  {
    match f
    case ClassName => Str(v.name)
    case Level => Int(v.level)
    case HitDie => Int(v.hitDie)
    case HitPoints => Int(v.hitPoints)
    case Fort => Int(v.saves["Fort"])
    case Ref => Int(v.saves["Ref"])
    case Will => Int(v.saves["Will"])
    case Bab => Num(v.bab)
  }

  /** The values of class `n` in the template hold the investment's fields. */
  predicate HasClass(m: map<TemplateKey, Value>, n: nat, v: Investment)
  {
    HasSaves(v) && forall f :: ClassKey(n, f) in m && m[ClassKey(n, f)] == FieldValue(v, f)
  }

  /** The keys present once `count` classes are written: the two name keys
      and the keys of classes 1 to `count`. */
  predicate WrittenBy(k: TemplateKey, count: nat)
  {
    match k
    case NameKey => true
    case UpperNameKey => true
    case DisplayKey => false
    case ClassKey(n, _) => 1 <= n <= count
  }

  /** How a class is shown on the sheet: its name, a space and its level. */
  function Display(name: string, level: int): string
  {
    name + " " + IntToString(level)
  }

  function Displays(vs: seq<Investment>): (ds: seq<string>)
    ensures |ds| == |vs|
    ensures forall i :: 0 <= i < |vs| ==> ds[i] == Display(vs[i].name, vs[i].level)
  {
    if vs == [] then []
    else
      var rest := Displays(vs[1..]);
      assert forall i :: 1 <= i < |vs| ==> vs[1..][i - 1] == vs[i];
      [Display(vs[0].name, vs[0].level)] + rest
  }

  /** Every class has all three saves the template shows. */
  predicate HasSaves(v: Investment)
  {
    "Fort" in v.saves && "Ref" in v.saves && "Will" in v.saves
  }

  predicate AllSaves(vs: seq<Investment>)
  {
    forall i :: 0 <= i < |vs| ==> HasSaves(vs[i])
  }

  /** The dictionary once the name keys and the first `count` classes are
      written: those keys and no others, holding their values. */
  ghost predicate Written(m: map<TemplateKey, Value>, name: string, vs: seq<Investment>, count: nat)
    requires count <= |vs|
  {
    && (forall k :: k in m <==> WrittenBy(k, count))
    && NameKey in m && m[NameKey] == Str(name)
    && UpperNameKey in m && m[UpperNameKey] == Str(UpperStr(name))
    && (forall j :: 0 <= j < count ==> HasClass(m, j + 1, vs[j]))
  }

  /** The template's keys are the name keys, the display key and eight keys
      per class; the name keys and the class keys hold their values. */
  ghost predicate Entries(m: map<TemplateKey, Value>, name: string, vs: seq<Investment>)
  {
    && (forall k :: k in m <==> k == DisplayKey || WrittenBy(k, |vs|))
    && NameKey in m && m[NameKey] == Str(name)
    && UpperNameKey in m && m[UpperNameKey] == Str(UpperStr(name))
    && (forall i :: 0 <= i < |vs| ==> HasClass(m, i + 1, vs[i]))
  }

  /** The complete template for a character named `name` with classes `vs`. */
  ghost predicate Template(m: map<TemplateKey, Value>, name: string, vs: seq<Investment>)
  {
    && Entries(m, name, vs)
    && DisplayKey in m && m[DisplayKey] == Str(DisplayText(vs))
  }

  /** The display line of a character's classes. */
  function DisplayText(vs: seq<Investment>): string
  {
    Join(", ", Displays(vs))
  }

  // ---------------------------------------------------------------- distinct keys

  /** The length of the run of digits a text starts with. */
  function LeadingDigits(x: string): (n: nat)
    ensures n <= |x|
  {
    if x == [] || !IsDigit(x[0]) then 0 else 1 + LeadingDigits(x[1..])
  }

  /** A run of digits followed by a text that does not start with a digit
      ends exactly where the digits do. */
  lemma {:induction false} DigitsEnd(a: string, s: string)
    requires forall i :: 0 <= i < |a| ==> IsDigit(a[i])
    requires s == [] || !IsDigit(s[0])
    ensures LeadingDigits(a + s) == |a|
  {
    if a != [] {
      assert (a + s)[1..] == a[1..] + s;
      DigitsEnd(a[1..], s);
    }
  }

  /** A run of digits followed by a suffix that does not start with a digit is
      split there in one way only. */
  lemma DigitsThenSuffix(a: string, s: string, b: string, t: string)
    requires forall i :: 0 <= i < |a| ==> IsDigit(a[i])
    requires forall i :: 0 <= i < |b| ==> IsDigit(b[i])
    requires s == [] || !IsDigit(s[0])
    requires t == [] || !IsDigit(t[0])
    requires a + s == b + t
    ensures a == b && s == t
  {
    DigitsEnd(a, s);
    DigitsEnd(b, t);
    assert a == (a + s)[..|a|] == (b + t)[..|b|] == b;
  }

  /** A class key's text is "class" followed by the number and the suffix. */
  lemma ClassKeyParts(n: nat, f: Field)
    ensures var t := KeyText(ClassKey(n, f));
      |t| >= 5 && t[0] == 'c' && t[5..] == NatToString(n) + Suffix(f)
  {
    assert KeyText(ClassKey(n, f)) == "class" + (NatToString(n) + Suffix(f));
  }

  /** Different fields have different suffixes, none starting with a digit. */
  lemma SuffixInjective(f: Field, g: Field)
    ensures Suffix(f) == [] || Suffix(f)[0] == '_'
    ensures Suffix(f) == Suffix(g) ==> f == g
  {
  }

  /** Two keys with the same text are the same key: the dictionary keeps one
      entry per template key. */
  lemma KeyTextInjective(k: TemplateKey, l: TemplateKey)
    ensures KeyText(k) == KeyText(l) ==> k == l
  {
    if KeyText(k) == KeyText(l) {
      if k.ClassKey? {
        ClassKeyParts(k.n, k.field);
      }
      if l.ClassKey? {
        ClassKeyParts(l.n, l.field);
      }
      if k.ClassKey? && l.ClassKey? {
        var n, f, m, g := k.n, k.field, l.n, l.field;
        SuffixInjective(f, g);
        SuffixInjective(g, f);
        DigitsThenSuffix(NatToString(n), Suffix(f), NatToString(m), Suffix(g));
        NatToStringInjective(n, m);
      }
    }
  }

  // ---------------------------------------------------------------- the object

  /** `PFCharacter`: the classes by name, and the order in which they were
      added, which is the order the template lists them in. */
  class Character {
    var name: string
    var classes: map<string, ClassInstance>
    var order: seq<string>

    /** Each class is listed once, and is stored under its own name. */
    ghost predicate Valid()
      reads this, classes.Values
    {
      && (forall i, j :: 0 <= i < j < |order| ==> order[i] != order[j])
      && (forall k :: k in classes <==> k in order)
      && (forall k :: k in classes ==> classes[k].name == k)
    }

    /** The investments, in listing order. */
    ghost function Investments(): (vs: seq<Investment>)
      requires Valid()
      reads this, classes.Values
      ensures |vs| == |order|
    {
      InvestmentsOf(order)
    }

    ghost function InvestmentsOf(keys: seq<string>): (vs: seq<Investment>)
      requires forall k :: k in keys ==> k in classes
      reads this, classes.Values
      ensures |vs| == |keys|
    {
      if keys == [] then [] else [classes[keys[0]].Fields()] + InvestmentsOf(keys[1..])
    }

    /** The investment at position `i` is that of the class listed there. */
    lemma {:induction false} InvestmentAt(keys: seq<string>, i: nat)
      requires forall k :: k in keys ==> k in classes
      requires i < |keys|
      ensures InvestmentsOf(keys)[i] == classes[keys[i]].Fields()
      decreases i
    {
      if i > 0 {
        InvestmentAt(keys[1..], i - 1);
      }
    }

    /** A character with no classes yet; loading the name and the classes from
        the character's JSON file is not modelled. */
    constructor (name: string)
      ensures Valid() && this.name == name && classes == map[] && order == []
    {
      this.name := name;
      classes := map[];
      order := [];
    }

    /** `__add_class`: a class whose name is already present changes nothing;
        otherwise a new investment of `level` levels in it is stored under its
        name and listed last. */
    method AddClass(c: PFClass, level: int)
      requires Valid()
      modifies this
      ensures Valid() && name == old(name)
      ensures c.name in old(classes) ==> classes == old(classes) && order == old(order)
      ensures c.name !in old(classes) ==>
        && classes.Keys == old(classes.Keys) + {c.name}
        && (forall k :: k in old(classes) ==> classes[k] == old(classes[k]))
        && fresh(classes[c.name]) && classes[c.name].Fields() == Invest(c, level)
        && order == old(order) + [c.name]
    {
      if c.name in classes {
        assert classes[c.name].name == c.name;
      }
      var present := exists k :: k in classes && classes[k].name == c.name;
      if !present {
        var entry := new ClassInstance(c, level);
        classes := classes[c.name := entry];
        order := order + [c.name];
      }
    }

    /** `get_template_values`: the name, the name in upper case, eight values
        per class and the classes' display line. A class without a "Fort",
        "Ref" or "Will" save raises `KeyError`; a character without classes
        raises `IndexError`. */
    method GetTemplateValues() returns (r: Result<map<TemplateKey, Value>>)
      requires Valid()
      ensures var vs := Investments();
        && (r.Err? <==> vs == [] || !AllSaves(vs))
        && (r.Err? ==> r.error == (if AllSaves(vs) then IndexError else KeyError))
        && (r.Ok? ==> Template(r.value, name, vs))
    {
      ghost var vs := Investments();
      var values, display := WriteClasses();
      if values.Err? {
        return values;
      }
      r := AddDisplayLine(values.value, display, name, vs);
    }

    /** The class loop of `get_template_values`: the name keys, then each
        class's entries under its position, and its display entry. */
    method WriteClasses() returns (r: Result<map<TemplateKey, Value>>, display: seq<string>)
      requires Valid()
      ensures var vs := Investments();
        && (r.Err? <==> !AllSaves(vs))
        && (r.Err? ==> r.error == KeyError)
        && (r.Ok? ==> Written(r.value, name, vs, |vs|) && display == Displays(vs))
    {
      ghost var vs := Investments();
      var values := map[NameKey := Str(name), UpperNameKey := Str(UpperStr(name))];
      display := [];
      for i := 0 to |order|
        invariant Written(values, name, vs, i)
        invariant display == Displays(vs[..i])
      {
        var instance := classes[order[i]];
        InvestmentAt(order, i);
        var written;
        written, display := WriteListed(values, display, instance, name, vs, i);
        if written.Err? {
          return Err(written.error), display;
        }
        values := written.value;
      }
      assert vs[..|order|] == vs;
      AllClassesSaves(values, name, vs);
      r := Ok(values);
    }
  }

  /** The last step of `get_template_values`: the display entries joined into
      the display line, which a character without classes cannot form. */
  method AddDisplayLine(values: map<TemplateKey, Value>, display: seq<string>, ghost name: string, ghost vs: seq<Investment>)
    returns (r: Result<map<TemplateKey, Value>>)
    requires Written(values, name, vs, |vs|) && display == Displays(vs)
    ensures r.Err? <==> vs == []
    ensures r.Err? ==> r.error == IndexError
    ensures r.Ok? ==> Template(r.value, name, vs)
  {
    var line := DisplayLine(display);
    if line.Err? {
      return Err(line.error);
    }
    assert line.value == DisplayText(vs);
    TemplateComplete(values, name, vs, line.value);
    r := Ok(values[DisplayKey := Str(line.value)]);
  }

  /** One pass of the class loop: the class's entries under position `i + 1`
      and its display entry. */
  method WriteListed(values: map<TemplateKey, Value>, display: seq<string>, instance: ClassInstance,
                     ghost name: string, ghost vs: seq<Investment>, i: nat)
    returns (r: Result<map<TemplateKey, Value>>, display': seq<string>)
    requires i < |vs| && instance.Fields() == vs[i]
    requires Written(values, name, vs, i) && display == Displays(vs[..i])
    ensures r.Err? <==> !HasSaves(vs[i])
    ensures r.Err? ==> r.error == KeyError
    ensures r.Ok? ==> Written(r.value, name, vs, i + 1) && display' == Displays(vs[..i + 1])
  {
    r := WriteClass(values, i + 1, instance);
    display' := display;
    if r.Err? {
      return;
    }
    ClassWritten(values, r.value, name, i, vs);
    DisplayStep(display, vs, i);
    display' := display + [Display(instance.name, instance.level)];
  }

  /** One class's eight entries, written under its position `n`; a missing
      save raises `KeyError`. */
  method WriteClass(values: map<TemplateKey, Value>, n: nat, instance: ClassInstance) returns (r: Result<map<TemplateKey, Value>>)
    ensures r.Err? <==> !HasSaves(instance.Fields())
    ensures r.Err? ==> r.error == KeyError
    ensures r.Ok? ==> forall k :: k in r.value <==> k in values || (k.ClassKey? && k.n == n)
    ensures r.Ok? ==> forall k :: k in values && !(k.ClassKey? && k.n == n) ==> k in r.value && r.value[k] == values[k]
    ensures r.Ok? ==> HasClass(r.value, n, instance.Fields())
  {
    var m := values;
    m := m[ClassKey(n, ClassName) := Str(instance.name)];
    m := m[ClassKey(n, Level) := Int(instance.level)];
    m := m[ClassKey(n, HitDie) := Int(instance.hitDie)];
    m := m[ClassKey(n, HitPoints) := Int(instance.hitPoints)];
    if "Fort" !in instance.saves {
      return Err(KeyError);
    }
    m := m[ClassKey(n, Fort) := Int(instance.saves["Fort"])];
    if "Ref" !in instance.saves {
      return Err(KeyError);
    }
    m := m[ClassKey(n, Ref) := Int(instance.saves["Ref"])];
    if "Will" !in instance.saves {
      return Err(KeyError);
    }
    m := m[ClassKey(n, Will) := Int(instance.saves["Will"])];
    m := m[ClassKey(n, Bab) := Num(instance.bab)];
    ghost var v := instance.Fields();
    forall f
      ensures ClassKey(n, f) in m && m[ClassKey(n, f)] == FieldValue(v, f)
    {
      match f
      case ClassName =>
      case Level =>
      case HitDie =>
      case HitPoints =>
      case Fort =>
      case Ref =>
      case Will =>
      case Bab =>
    }
    forall k: TemplateKey | k.ClassKey? && k.n == n
      ensures k in m
    {
      assert k == ClassKey(n, k.field);
    }
    return Ok(m);
  }

  /** Writing the entries of class `i + 1` keeps the earlier classes'
      entries and the name keys. */
  lemma ClassWritten(before: map<TemplateKey, Value>, after: map<TemplateKey, Value>, name: string, i: nat, vs: seq<Investment>)
    requires i < |vs| && Written(before, name, vs, i)
    requires forall k :: k in after <==> k in before || (k.ClassKey? && k.n == i + 1)
    requires forall k :: k in before && !(k.ClassKey? && k.n == i + 1) ==> k in after && after[k] == before[k]
    requires HasClass(after, i + 1, vs[i])
    ensures Written(after, name, vs, i + 1)
  {
    forall j | 0 <= j < i
      ensures HasClass(after, j + 1, vs[j])
    {
      assert HasClass(before, j + 1, vs[j]);
    }
  }

  /** The dictionary the class loop leaves, with a display line added, has
      the template's entries; every class then has its three saves. */
  lemma TemplateComplete(m: map<TemplateKey, Value>, name: string, vs: seq<Investment>, line: string)
    requires line == DisplayText(vs) && Written(m, name, vs, |vs|)
    ensures Template(m[DisplayKey := Str(line)], name, vs)
    ensures AllSaves(vs)
  {
    var after := m[DisplayKey := Str(line)];
    forall j | 0 <= j < |vs|
      ensures HasClass(after, j + 1, vs[j])
    {
      assert HasClass(m, j + 1, vs[j]);
    }
    assert forall k :: k in after <==> k == DisplayKey || WrittenBy(k, |vs|);
  }

  /** The display line: the class entries joined by ", " when there are
      several, the single entry when there is one, and `IndexError` when there
      are none. */
  function DisplayLine(display: seq<string>): (r: Result<string>)
    ensures r.Ok? <==> display != []
    ensures r.Err? ==> r.error == IndexError
    ensures r.Ok? ==> r.value == Join(", ", display)
    ensures |display| == 1 ==> r == Ok(display[0])
  {
    if |display| > 1 then Ok(Join(", ", display))
    else if display == [] then Err(IndexError)
    else Ok(display[0])
  }

  /** Every class written has its three saves. */
  lemma AllClassesSaves(m: map<TemplateKey, Value>, name: string, vs: seq<Investment>)
    requires Written(m, name, vs, |vs|)
    ensures AllSaves(vs)
  {
    forall j | 0 <= j < |vs|
      ensures HasSaves(vs[j])
    {
      assert HasClass(m, j + 1, vs[j]);
    }
  }

  /** The display entries grow by one per class. */
  lemma DisplayStep(display: seq<string>, vs: seq<Investment>, i: nat)
    requires i < |vs| && display == Displays(vs[..i])
    ensures display + [Display(vs[i].name, vs[i].level)] == Displays(vs[..i + 1])
  {
    assert vs[..i + 1] == vs[..i] + [vs[i]];
  }
}
