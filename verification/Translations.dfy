/** Translated organization columns: merged into the update, and restored after Decidim's commands. */
module Translations {
  import opened Wrappers
  import opened Json

  /** Locale to value; also holds Decidim's own machine translations. */
  type Column = Hash

  const MACHINE: string := "machine_translations"

  const FIELDS: seq<string> := ["name", "short_name", "description", "admin_terms_of_service_body"]

  function Human(c: Column): Column {
    c - {MACHINE}
  }

  /** The locales submitted for a field; anything but a hash counts as none. */
  function Submitted(updates: Hash, field: string): Column {
    if field in updates && updates[field].Obj? then updates[field].fields else map[]
  }

  function ColumnOf(columns: map<string, Column>, field: string): Column {
    if field in columns then columns[field] else map[]
  }

  // Merging into the baseline

  /** What the forms are given for a field. */
  function MergedUpdate(existing: Column, updates: Hash, field: string): Column {
    if field in updates && updates[field].Obj? then Human(existing) + Human(updates[field].fields) else existing
  }

  /** merge_translated_locale_updates!: fills the baseline and takes the translated keys out of the updates. */
  method MergeTranslatedLocaleUpdates(baseline: map<string, Column>, updates: Hash)
    returns (merged: map<string, Column>, rest: Hash)
    ensures rest == updates - (set f | f in FIELDS)
    ensures forall f | f in FIELDS :: ColumnOf(merged, f) == MergedUpdate(ColumnOf(baseline, f), updates, f)
    ensures forall f | f !in FIELDS :: ColumnOf(merged, f) == ColumnOf(baseline, f)
  {
    merged, rest := baseline, updates;
    var i := 0;
    while i < |FIELDS|
      invariant 0 <= i <= |FIELDS|
      invariant rest == updates - (set f | f in FIELDS[..i])
      invariant forall f :: ColumnOf(merged, f)
                  == if f in FIELDS[..i] then MergedUpdate(ColumnOf(baseline, f), updates, f) else ColumnOf(baseline, f)
    {
      var field := FIELDS[i];
      FieldsDistinct(i);
      assert FIELDS[..i + 1] == FIELDS[..i] + [field];
      if field in rest {
        var update := rest[field];
        if update.Obj? {
          merged := merged[field := Human(ColumnOf(merged, field)) + Human(update.fields)];
        }
      }
      rest := rest - {field};
      i := i + 1;
    }
    assert FIELDS[..i] == FIELDS;
  }

  lemma FieldsByName(field: string)
    ensures field in FIELDS
       <==> || field == "name" || field == "short_name" || field == "description"
            || field == "admin_terms_of_service_body"
  {
  }

  lemma FieldsDistinct(i: nat)
    requires i < |FIELDS|
    ensures FIELDS[i] !in FIELDS[..i]
  {
    assert |"name"| == 4 && |"short_name"| == 10 && |"description"| == 11 && |"admin_terms_of_service_body"| == 27;
    assert forall j | 0 <= j < i :: |FIELDS[j]| != |FIELDS[i]|;
  }

  // Restoring

  /** The snapshot of a field, overridden by exactly the submitted locales. */
  function Restored(before: Column, updates: Hash, field: string): Column {
    before + Submitted(updates, field)
  }

  /** One column after the restore loop: blank snapshots and agreeing columns are left alone. */
  function RestoreColumn(current: Column, before: Column, updates: Hash, field: string): Column {
    if before == map[] || Human(current) == Restored(before, updates, field) then current
    else Restored(before, updates, field)
  }

  /** What a column stores under Decidim's own key. */
  function MachineOf(c: Column): Option<Value> {
    if MACHINE in c then Some(c[MACHINE]) else None
  }

  /** Whatever the commands left, a restored column is the snapshot overridden by the submitted
      locales, machine translations apart. Those the commands left stay stored exactly when none were
      submitted and the restore had nothing to correct; else the submitted ones are stored, or none. */
  lemma RestoreColumnWins(current: Column, before: Column, updates: Hash, field: string)
    requires before != map[] && MACHINE !in before
    ensures var stored, submitted := RestoreColumn(current, before, updates, field), Submitted(updates, field);
            && Human(stored) == before + Human(submitted)
            && MachineOf(stored) == if MACHINE !in submitted && Human(current) == before + submitted
                                    then MachineOf(current)
                                    else MachineOf(submitted)
  {
    var submitted := Submitted(updates, field);
    assert Human(before + submitted) == before + Human(submitted);
    assert MACHINE !in submitted ==> Human(submitted) == submitted;
  }

  /** Decidim's machine translations are its own: what is stored is what the commands left, exactly when
      the restore keeps the column or both hold the same. */
  lemma MachineKeptIff(current: Column, before: Column, updates: Hash, field: string)
    requires before != map[] && MACHINE !in before
    ensures var submitted := Submitted(updates, field);
            MachineOf(RestoreColumn(current, before, updates, field)) == MachineOf(current)
            <==> || (MACHINE !in submitted && Human(current) == before + submitted)
                 || MachineOf(submitted) == MachineOf(current)
  {
    RestoreColumnWins(current, before, updates, field);
  }

  class OrganizationColumns {
    var columns: map<string, Column>

    constructor (columns: map<string, Column>)
      ensures this.columns == columns
    {
      this.columns := columns;
    }

    /** translation_snapshots. */
    function Snapshot(field: string): Column
      reads this
    {
      Human(ColumnOf(columns, field))
    }

    /** restore_unsubmitted_translations!: `before` holds the snapshots taken ahead of the commands. */
    method RestoreUnsubmitted(before: map<string, Column>, updates: Hash) returns (dirty: bool)
      modifies this
      ensures forall f :: ColumnOf(columns, f) ==
                if f in FIELDS then RestoreColumn(ColumnOf(old(columns), f), ColumnOf(before, f), updates, f)
                else ColumnOf(old(columns), f)
      ensures !dirty ==> columns == old(columns)
    {
      dirty := false;
      var i := 0;
      while i < |FIELDS|
        invariant 0 <= i <= |FIELDS|
        invariant forall f :: ColumnOf(columns, f) ==
                    if f in FIELDS[..i]
                    then RestoreColumn(ColumnOf(old(columns), f), ColumnOf(before, f), updates, f)
                    else ColumnOf(old(columns), f)
        invariant !dirty ==> columns == old(columns)
      {
        var field := FIELDS[i];
        FieldsDistinct(i);
        assert FIELDS[..i + 1] == FIELDS[..i] + [field];
        hide Human, Restored;
        var snapshot := ColumnOf(before, field);
        if snapshot != map[] {
          var merged := Restored(snapshot, updates, field);
          if Human(ColumnOf(columns, field)) != merged {
            columns := columns[field := merged];
            dirty := true;
          }
        }
        i := i + 1;
      }
      assert FIELDS[..i] == FIELDS;
    }

    /** apply_updates: snapshots, then the commands (which may leave any columns behind), then the restore. */
    method ApplyUpdates(commands: map<string, Column> -> map<string, Column>, updates: Hash)
      modifies this
      ensures forall f :: ColumnOf(columns, f) == StoredColumn(old(columns), commands, updates, f)
      ensures forall f | f in FIELDS && Human(ColumnOf(old(columns), f)) != map[] ::
                Human(ColumnOf(columns, f)) == Human(ColumnOf(old(columns), f)) + Human(Submitted(updates, f))
    {
      var before := map f | f in FIELDS :: Snapshot(f);
      columns := commands(columns);
      ghost var left := columns;
      var _ := RestoreUnsubmitted(before, updates);
      forall f | f in FIELDS && ColumnOf(before, f) != map[]
        ensures Human(ColumnOf(columns, f)) == ColumnOf(before, f) + Human(Submitted(updates, f))
      {
        RestoreColumnWins(ColumnOf(left, f), ColumnOf(before, f), updates, f);
      }
    }
  }

  /** What a whole update stores for a field. */
  function StoredColumn(
    columns: map<string, Column>, commands: map<string, Column> -> map<string, Column>, updates: Hash, field: string
  ): Column {
    var left := ColumnOf(commands(columns), field);
    if field in FIELDS then RestoreColumn(left, Human(ColumnOf(columns, field)), updates, field) else left
  }

  /** Commands that keep what the form was given for a field, and see to its machine translations. */
  ghost predicate KeepsMerged(
    columns: map<string, Column>, commands: map<string, Column> -> map<string, Column>, updates: Hash, field: string
  ) {
    Human(ColumnOf(commands(columns), field)) == Human(MergedUpdate(ColumnOf(columns, field), updates, field))
  }

  /** The merge drops submitted machine translations and the restore brings them back: when the commands keep what
      the forms were given, the column they left is what stays stored exactly when none were submitted,
      or the commands left those very ones. */
  lemma CommandsStandIff(
    columns: map<string, Column>, commands: map<string, Column> -> map<string, Column>, updates: Hash, field: string
  )
    requires field in FIELDS && Human(ColumnOf(columns, field)) != map[]
              && KeepsMerged(columns, commands, updates, field)
    ensures var left, submitted := ColumnOf(commands(columns), field), Submitted(updates, field);
            StoredColumn(columns, commands, updates, field) == left
            <==> MACHINE !in submitted || MachineOf(left) == MachineOf(submitted)
  {
    var left, submitted := ColumnOf(commands(columns), field), Submitted(updates, field);
    var before, stored := Human(ColumnOf(columns, field)), StoredColumn(columns, commands, updates, field);
    RestoreColumnWins(left, before, updates, field);
    assert Human(left) == before + Human(submitted);
    assert MACHINE !in submitted ==> Human(submitted) == submitted;
    if MachineOf(left) == MachineOf(submitted) && MACHINE in submitted {
      assert forall k | k in left && k != MACHINE :: k in Human(left) && left[k] == Human(left)[k];
      assert forall k | k in stored && k != MACHINE :: k in Human(stored) && stored[k] == Human(stored)[k];
      assert left.Keys == Human(left).Keys + {MACHINE} && stored.Keys == Human(stored).Keys + {MACHINE};
      assert stored == left;
    }
  }

  /** The failing input: the machine translations of the payload are stored, although the forms never
      saw them and the command left its own. */
  lemma SubmittedMachineStored()
    ensures var columns: map<string, Column> := map["name" := map["en" := Num(1)]];
            var updates: Hash := map["name" := Obj(map["en" := Num(2), "machine_translations" := Num(3)])];
            var left: map<string, Column> := map["name" := map["en" := Num(2), "machine_translations" := Num(4)]];
            && KeepsMerged(columns, _ => left, updates, "name")
            && MachineOf(StoredColumn(columns, _ => left, updates, "name")) == Some(Num(3))
  {
    var columns: map<string, Column> := map["name" := map["en" := Num(1)]];
    var updates: Hash := map["name" := Obj(map["en" := Num(2), "machine_translations" := Num(3)])];
    var left: map<string, Column> := map["name" := map["en" := Num(2), "machine_translations" := Num(4)]];
    assert |"en"| != |"machine_translations"|;
    var before := Human(ColumnOf(columns, "name"));
    assert before == map["en" := Num(1)] && "en" in before;
    assert FIELDS[0] == "name";
    var human: Column := map["en" := Num(2)];
    assert Human(left["name"]) == human;
    assert Human(updates["name"].fields) == human;
    assert before + human == human && Human(human) == human;
    RestoreColumnWins(left["name"], before, updates, "name");
  }

  /** And another: the command forgets a locale nobody submitted, and the restore that brings it back
      loses the machine translations. */
  lemma RestoreLosesMachine()
    ensures var columns: map<string, Column> := map["name" := map["en" := Num(1), "fr" := Num(5)]];
            var updates: Hash := map["name" := Obj(map["en" := Num(2)])];
            var left: map<string, Column> := map["name" := map["en" := Num(2), MACHINE := Num(4)]];
            StoredColumn(columns, _ => left, updates, "name") == map["en" := Num(2), "fr" := Num(5)]
  {
    var columns: map<string, Column> := map["name" := map["en" := Num(1), "fr" := Num(5)]];
    var updates: Hash := map["name" := Obj(map["en" := Num(2)])];
    var left: map<string, Column> := map["name" := map["en" := Num(2), MACHINE := Num(4)]];
    assert |"en"| == |"fr"| == 2 != |MACHINE| && "en"[0] == 'e' && "fr"[0] == 'f';
    var before := Human(ColumnOf(columns, "name"));
    assert before == columns["name"];
    assert FIELDS[0] == "name";
    assert "fr" in before && "fr" !in Human(left["name"]);
    assert before + updates["name"].fields == map["en" := Num(2), "fr" := Num(5)];
  }
}
