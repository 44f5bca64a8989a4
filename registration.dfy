/**
 * The registration-form models: the before-validator that turns a JSON null
 * into an empty list for list-typed fields, and the test whether a
 * registration form is open at a given time.
 */
module Registration {
  import opened Wrappers
  import opened Text
  import opened Calendar

  /** A decoded JSON value as the before-validators receive it. */
  datatype Json =
    | JNull
    | JBool(b: bool)
    | JInt(i: int)
    | JText(s: string)
    | JList(items: seq<Json>)
    | JObject(members: map<string, Json>)

  /** `_null_to_list`: null becomes the empty list, every other value is kept. */
  function NullToList(v: Json): (r: Json)
    ensures !r.JNull?
    ensures v.JNull? ==> r == JList([])
    ensures !v.JNull? ==> r == v
  {
    if v.JNull? then JList([]) else v
  }

  /** Applying `_null_to_list` twice is applying it once. */
  lemma NullToListIdempotent(v: Json)
    ensures NullToList(NullToList(v)) == NullToList(v)
  {
  }

  /**
   * A declared model field: its name, its alias ("" when it has none) and the
   * text of its annotation in the model class's own annotations, `None` when
   * the class itself does not annotate it (an inherited field).
   */
  datatype ModelField = ModelField(name: string, alias: string, annotation: Option<string>)

  /** The key the field is read from: the alias, or the name when there is no alias. */
  function Key(f: ModelField): string
  {
    if f.alias != "" then f.alias else f.name
  }

  /** The source's test for a list field: a non-empty annotation whose lower-cased text contains "list". */
  predicate IsListField(f: ModelField)
  {
    f.annotation.Some? && f.annotation.value != "" && ContainsText(Lower(f.annotation.value), "list")
  }

  /** The test ignores case: an annotation that begins with `List`, as `List[Entry]` does, makes a list field. */
  lemma CapitalListIsListField(f: ModelField)
    requires f.annotation.Some? && |f.annotation.value| >= 4 && f.annotation.value[..4] == "List"
    ensures IsListField(f)
  {
    var annotation := f.annotation.value;
    LowerAt(annotation, 0);
    LowerAt(annotation, 1);
    LowerAt(annotation, 2);
    LowerAt(annotation, 3);
    assert Lower(annotation)[..4] == "list";
  }

  /** An annotation without "list", such as `str`, or no annotation at all, makes no list field. */
  lemma OtherFieldsAreNotLists()
    ensures !IsListField(ModelField("Name", "", Some("str")))
    ensures !IsListField(ModelField("Entries", "", None))
  {
  }

  /** A model field is a list field exactly when "list" occurs somewhere in its lower-cased annotation. */
  lemma ListFieldAt(f: ModelField)
    ensures IsListField(f)
        <==> f.annotation.Some? && exists i: nat :: OccursAt(Lower(f.annotation.value), "list", i)
  {
    if f.annotation.Some? {
      ContainsTextAt(Lower(f.annotation.value), "list");
    }
  }

  /** Some list field of the model is read from key `k`. */
  predicate IsListKey(fields: seq<ModelField>, k: string)
  {
    exists i :: 0 <= i < |fields| && Key(fields[i]) == k && IsListField(fields[i])
  }

  /** The dict after conversion: a null under a list field's key becomes the empty list, nothing else changes. */
  function NullListsConverted(fields: seq<ModelField>, m: map<string, Json>): map<string, Json>
  {
    map k | k in m :: if m[k] == JNull && IsListKey(fields, k) then JList([]) else m[k]
  }

  /** The conversion keeps every key and adds none. */
  lemma ConvertedKeys(fields: seq<ModelField>, m: map<string, Json>)
    ensures NullListsConverted(fields, m).Keys == m.Keys
  {
  }

  /** Non-null values and values of keys no list field reads are untouched; null list fields become empty lists. */
  lemma ConvertedValues(fields: seq<ModelField>, m: map<string, Json>, k: string)
    requires k in m
    ensures m[k] != JNull ==> NullListsConverted(fields, m)[k] == m[k]
    ensures !IsListKey(fields, k) ==> NullListsConverted(fields, m)[k] == m[k]
    ensures m[k] == JNull && IsListKey(fields, k) ==> NullListsConverted(fields, m)[k] == JList([])
  {
  }

  /** After the conversion no list field's key holds a null. */
  lemma ConvertedHasNoNullList(fields: seq<ModelField>, m: map<string, Json>, k: string)
    requires k in m && IsListKey(fields, k)
    ensures NullListsConverted(fields, m)[k] != JNull
  {
  }

  /** Converting twice gives the same dict as converting once. */
  lemma ConvertIdempotent(fields: seq<ModelField>, m: map<string, Json>)
    ensures NullListsConverted(fields, NullListsConverted(fields, m)) == NullListsConverted(fields, m)
  {
    var once := NullListsConverted(fields, m);
    var twice := NullListsConverted(fields, once);
    assert twice.Keys == once.Keys;
    forall k | k in once ensures twice[k] == once[k] {
      ConvertedValues(fields, m, k);
      ConvertedValues(fields, once, k);
    }
  }

  /** One more field of the model takes its null, if any, to the empty list. */
  lemma ConvertedStep(fields: seq<ModelField>, i: nat, m: map<string, Json>)
    requires i < |fields|
    ensures var before := NullListsConverted(fields[..i], m);
            var k := Key(fields[i]);
            NullListsConverted(fields[..i + 1], m)
              == if k in before && before[k] == JNull && IsListField(fields[i]) then before[k := JList([])] else before
  {
    var before := NullListsConverted(fields[..i], m);
    var k := Key(fields[i]);
    if k in before && before[k] == JNull && IsListField(fields[i]) {
      ConvertedStepChanges(fields, i, m);
    } else {
      ConvertedStepKeeps(fields, i, m);
    }
  }

  /** A list field whose key holds a null so far gets the empty list there. */
  lemma ConvertedStepChanges(fields: seq<ModelField>, i: nat, m: map<string, Json>)
    requires i < |fields|
    requires var before := NullListsConverted(fields[..i], m);
             Key(fields[i]) in before && before[Key(fields[i])] == JNull && IsListField(fields[i])
    ensures var before := NullListsConverted(fields[..i], m);
            NullListsConverted(fields[..i + 1], m) == before[Key(fields[i]) := JList([])]
  {
    var before := NullListsConverted(fields[..i], m);
    var after := NullListsConverted(fields[..i + 1], m);
    var updated := before[Key(fields[i]) := JList([])];
    forall key | key in m ensures after[key] == updated[key] {
      ConvertedAt(fields, i, m, key);
    }
    assert after.Keys == updated.Keys;
  }

  /** Any other field leaves the dict as it was. */
  lemma ConvertedStepKeeps(fields: seq<ModelField>, i: nat, m: map<string, Json>)
    requires i < |fields|
    requires var before := NullListsConverted(fields[..i], m);
             !(Key(fields[i]) in before && before[Key(fields[i])] == JNull && IsListField(fields[i]))
    ensures NullListsConverted(fields[..i + 1], m) == NullListsConverted(fields[..i], m)
  {
    var before := NullListsConverted(fields[..i], m);
    var after := NullListsConverted(fields[..i + 1], m);
    forall key | key in m ensures after[key] == before[key] {
      ConvertedAt(fields, i, m, key);
    }
    assert after.Keys == before.Keys;
  }

  /** Field `i` changes the value under its own key only, and only a null one. */
  lemma ConvertedAt(fields: seq<ModelField>, i: nat, m: map<string, Json>, key: string)
    requires i < |fields| && key in m
    ensures var before, after := NullListsConverted(fields[..i], m), NullListsConverted(fields[..i + 1], m);
            after[key] == if key == Key(fields[i]) && before[key] == JNull && IsListField(fields[i]) then JList([]) else before[key]
  {
    ListKeyStep(fields, i, key);
  }

  /** A key is read by a list field among the first `i + 1` exactly when it is among the first `i` or it is field `i`'s. */
  lemma ListKeyStep(fields: seq<ModelField>, i: nat, k: string)
    requires i < |fields|
    ensures IsListKey(fields[..i + 1], k) <==> IsListKey(fields[..i], k) || (Key(fields[i]) == k && IsListField(fields[i]))
  {
    var front, grown := fields[..i], fields[..i + 1];
    assert grown[i] == fields[i];
    assert forall j :: 0 <= j < i ==> grown[j] == front[j];
  }

  /** A mutable JSON object: the dict the model validator receives and edits in place. */
  class Dict {
    var entries: map<string, Json>

    constructor(entries: map<string, Json>)
      ensures this.entries == entries
    {
      this.entries := entries;
    }
  }

  /** The raw input of a model validator: a dict, or any other value. */
  datatype Input = DictData(dict: Dict) | OtherData(value: Json)

  /**
   * `NullSafeModel._convert_null_lists`: walks the model's fields in order
   * and, in a dict input, replaces a null under a list field's key by the
   * empty list in place; the very same input is returned.
   */
  method ConvertNullLists(fields: seq<ModelField>, data: Input) returns (result: Input)
    modifies if data.DictData? then {data.dict} else {}
    ensures result == data
    ensures data.DictData? ==> data.dict.entries == NullListsConverted(fields, old(data.dict.entries))
  {
    if data.DictData? {
      var dict := data.dict;
      ghost var original := dict.entries;
      assert fields[..0] == [];
      assert NullListsConverted(fields[..0], original) == original;
      for i := 0 to |fields|
        invariant dict.entries == NullListsConverted(fields[..i], original)
      {
        ConvertedStep(fields, i, original);
        var key := Key(fields[i]);
        if key in dict.entries && dict.entries[key] == JNull {
          if IsListField(fields[i]) {
            dict.entries := dict.entries[key := JList([])];
          }
        }
      }
      assert fields[..|fields|] == fields;
    }
    result := data;
  }

  /** The registration fields the activity check reads. */
  datatype RegistrationForm = RegistrationForm(
    enabled: bool,
    enabledFrom: Option<CalendarDateTime>,
    enabledTo: Option<CalendarDateTime>)

  /**
   * `Registration.is_active` as written; `None` where a comparison of the
   * aware clock reading with a naive bound raises `TypeError`.
   */
  function IsActiveAsWritten(reg: RegistrationForm, now: CalendarDateTime): (r: Option<bool>)
    requires IsUtcNow(now)
    ensures !reg.enabled ==> r == Some(false)
    ensures r.None? ==>
      (reg.enabledFrom.Some? && !IsAware(reg.enabledFrom.value)) || (reg.enabledTo.Some? && !IsAware(reg.enabledTo.value))
  {
    if !reg.enabled then Some(false)
    else
      var early := if reg.enabledFrom.Some? then PyLess(now, reg.enabledFrom.value) else Some(false);
      if early.None? then None
      else if early.value then Some(false)
      else
        var late := if reg.enabledTo.Some? then PyLess(reg.enabledTo.value, now) else Some(false);
        if late.None? then None
        else if late.value then Some(false)
        else Some(true)
  }

  /** `Registration.is_active` with every bound comparable. */
  function IsActive(reg: RegistrationForm, now: CalendarDateTime): (r: bool)
    ensures r <==> reg.enabled && InWindow(now, reg.enabledFrom, reg.enabledTo)
  {
    if !reg.enabled then false
    else if reg.enabledFrom.Some? && UtcSeconds(now) < UtcSeconds(reg.enabledFrom.value) then false
    else if reg.enabledTo.Some? && UtcSeconds(reg.enabledTo.value) < UtcSeconds(now) then false
    else true
  }

  /** Where every bound present is aware, the source's check raises nothing and agrees with the corrected one. */
  lemma ActiveAsWrittenAgrees(reg: RegistrationForm, now: CalendarDateTime)
    requires IsUtcNow(now)
    requires reg.enabledFrom.Some? ==> IsAware(reg.enabledFrom.value)
    requires reg.enabledTo.Some? ==> IsAware(reg.enabledTo.value)
    ensures IsActiveAsWritten(reg, now) == Some(IsActive(reg, now))
  {
  }

  /** An enabled form with a naive opening bound makes the source's check raise. */
  lemma NaiveOpeningRaises(reg: RegistrationForm, now: CalendarDateTime)
    requires IsUtcNow(now)
    requires reg.enabled && reg.enabledFrom.Some? && !IsAware(reg.enabledFrom.value)
    ensures IsActiveAsWritten(reg, now).None?
  {
  }

  /** A disabled form is inactive whatever its dates. */
  lemma DisabledIsInactive(reg: RegistrationForm, now: CalendarDateTime)
    requires !reg.enabled
    ensures !IsActive(reg, now)
  {
  }

  /** Both ends of the window are included. */
  lemma ActiveAtBounds(reg: RegistrationForm, now: CalendarDateTime)
    requires reg.enabled
    requires reg.enabledFrom == Some(now) || reg.enabledTo == Some(now)
    requires reg.enabledFrom.None? || reg.enabledTo.None? || UtcSeconds(reg.enabledFrom.value) <= UtcSeconds(reg.enabledTo.value)
    ensures IsActive(reg, now)
  {
  }
}
