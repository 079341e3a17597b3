/** The SET clause of a partial update, as the services build it: a fixed,
    ordered list of optional columns; each present one becomes
    `column = $k` with its value at position k of the parameter list; the
    key comes last, as `WHERE key = $(n+1)`. */
module SetClause {
  import opened Js
  import opened Rows

  /** One optional column of a partial update: its name, the value the caller
      passed, and whether the builder counts it as present. */
  datatype Field<C> = Field(column: C, value: JsValue, present: bool)

  /** The fragment `column = $placeholder`. */
  datatype Assignment<C> = Assignment(column: C, placeholder: nat)

  /** `UPDATE table SET sets WHERE keyColumn = $keyPlaceholder` with its
      positional parameter list `values` ($k is values[k - 1]). */
  datatype UpdateStatement<C> = UpdateStatement(
    table: string,
    sets: seq<Assignment<C>>,
    keyColumn: string,
    keyPlaceholder: nat,
    values: seq<JsValue>)

  const NO_FIELDS_TO_UPDATE := "No fields to update"

  /** A string parameter counts when truthy (`if (name)`): "" is skipped. */
  function TextField<C>(column: C, v: JsValue): Field<C>
  {
    Field(column, v, Truthy(v))
  }

  /** A boolean or numeric parameter counts when `!== undefined`: false and 0 are written. */
  function DefinedField<C>(column: C, v: JsValue): Field<C>
  {
    Field(column, v, v != Undefined)
  }

  predicate IsPresent<C>(f: Field<C>)
  {
    f.present
  }

  /** The present fields, in their fixed order. */
  function Chosen<C(!new)>(fields: seq<Field<C>>): (r: seq<Field<C>>)
    ensures forall f :: f in r <==> f in fields && f.present
  {
    Where(fields, IsPresent)
  }

  /** Zip the chosen columns with the contiguous placeholders 1..n. */
  function Numbered<C>(fields: seq<Field<C>>): seq<Assignment<C>>
  {
    seq(|fields|, k requires 0 <= k < |fields| => Assignment(fields[k].column, k + 1))
  }

  function ValuesOf<C>(fields: seq<Field<C>>): seq<JsValue>
  {
    seq(|fields|, k requires 0 <= k < |fields| => fields[k].value)
  }

  /** The placeholder bookkeeping every statement of a builder keeps: the k-th
      fragment uses $k for k = 1..n, the key uses $(n+1), and there is exactly
      one parameter per placeholder. */
  ghost predicate WellNumbered<C>(u: UpdateStatement<C>)
  {
    && |u.values| == |u.sets| + 1
    && u.keyPlaceholder == |u.sets| + 1
    && forall k :: 0 <= k < |u.sets| ==> u.sets[k].placeholder == k + 1
  }

  /** The reference builder: the statement a partial update over `fields`
      should issue, or the "No fields to update" error when none is present. */
  function Statement<C(!new)>(table: string, keyColumn: string, fields: seq<Field<C>>, key: JsValue): (r: Result<UpdateStatement<C>>)
    ensures r.Err? <==> forall f :: f in fields ==> !f.present
    ensures r.Err? ==> r.message == NO_FIELDS_TO_UPDATE
    ensures r.Ok? ==> WellNumbered(r.value) && r.value.table == table && r.value.keyColumn == keyColumn
    ensures r.Ok? ==> r.value.values[r.value.keyPlaceholder - 1] == key
    ensures r.Ok? ==> |r.value.sets| == |Chosen(fields)|
    ensures r.Ok? ==> forall k :: 0 <= k < |r.value.sets| ==>
      r.value.sets[k].column == Chosen(fields)[k].column &&
      r.value.values[r.value.sets[k].placeholder - 1] == Chosen(fields)[k].value
  {
    var chosen := Chosen(fields);
    if chosen == [] then Err(NO_FIELDS_TO_UPDATE)
    else
      assert chosen[0] in chosen;
      Ok(UpdateStatement(table, Numbered(chosen), keyColumn, |chosen| + 1, ValuesOf(chosen) + [key]))
  }

  /** Whether the statement has a fragment for `column`. */
  ghost predicate Writes<C>(u: UpdateStatement<C>, column: C)
  {
    exists k :: 0 <= k < |u.sets| && u.sets[k].column == column
  }

  /** A column is written by the statement exactly when its field is present. */
  lemma WrittenIffPresent<C(!new)>(table: string, keyColumn: string, fields: seq<Field<C>>, key: JsValue, column: C)
    requires Statement(table, keyColumn, fields, key).Ok?
    ensures Writes(Statement(table, keyColumn, fields, key).value, column)
        <==> (exists f :: f in fields && f.present && f.column == column)
  {
    var u := Statement(table, keyColumn, fields, key).value;
    var chosen := Chosen(fields);
    if f :| f in fields && f.present && f.column == column {
      assert f in chosen;
      var k :| 0 <= k < |chosen| && chosen[k] == f;
      assert u.sets[k].column == column;
    }
    if k :| 0 <= k < |u.sets| && u.sets[k].column == column {
      assert chosen[k] in chosen;
    }
  }

  /** Over distinct columns, a field's column is written exactly when that field is present. */
  lemma WritesIffFieldPresent<C(!new)>(table: string, keyColumn: string, fields: seq<Field<C>>, key: JsValue, i: nat)
    requires DistinctColumns(fields)
    requires i < |fields|
    requires Statement(table, keyColumn, fields, key).Ok?
    ensures Writes(Statement(table, keyColumn, fields, key).value, fields[i].column) <==> fields[i].present
  {
    WrittenIffPresent(table, keyColumn, fields, key, fields[i].column);
    assert fields[i] in fields;
    if f :| f in fields && f.present && f.column == fields[i].column {
      var j :| 0 <= j < |fields| && fields[j] == f;
      assert j == i;
    }
  }

  /** The fragments appear in the fixed field order: the i-th and j-th
      fragments (i < j) come from fields at positions p < q. */
  lemma ColumnsInFieldOrder<C(!new)>(table: string, keyColumn: string, fields: seq<Field<C>>, key: JsValue, i: nat, j: nat)
    requires Statement(table, keyColumn, fields, key).Ok?
    requires i < j < |Statement(table, keyColumn, fields, key).value.sets|
    ensures exists p, q ::
              && 0 <= p < q < |fields|
              && fields[p].column == Statement(table, keyColumn, fields, key).value.sets[i].column
              && fields[q].column == Statement(table, keyColumn, fields, key).value.sets[j].column
  {
    WhereKeepsOrder(fields, IsPresent, i, j);
  }

  // The imperative builders push onto `fields` and `values` step by step;
  // Tracks says that after the first k optional parameters the two arrays
  // are the reference clause of the chosen fields among those k.

  ghost predicate Tracks<C>(sets: seq<Assignment<C>>, values: seq<JsValue>, chosen: seq<Field<C>>)
  {
    sets == Numbered(chosen) && values == ValuesOf(chosen)
  }

  /** Pushing `column = $(|fields| + 1)` and its value keeps the arrays in lock-step. */
  lemma PushKeepsTracks<C>(sets: seq<Assignment<C>>, values: seq<JsValue>, chosen: seq<Field<C>>, f: Field<C>)
    requires Tracks(sets, values, chosen)
    ensures Tracks(sets + [Assignment(f.column, |sets| + 1)], values + [f.value], chosen + [f])
  {
    assert Numbered(chosen + [f]) == Numbered(chosen) + [Assignment(f.column, |sets| + 1)];
    assert ValuesOf(chosen + [f]) == ValuesOf(chosen) + [f.value];
  }

  /** The chosen part of a single field. */
  function Pick<C>(f: Field<C>): (r: seq<Field<C>>)
    ensures r == [] <==> !f.present
  {
    if f.present then [f] else []
  }

  /** Looking at one more optional parameter adds it to the chosen ones iff present. */
  lemma ChosenAppend<C(!new)>(seen: seq<Field<C>>, f: Field<C>)
    ensures Chosen(seen + [f]) == Chosen(seen) + Pick(f)
  {
    assert (seen + [f])[..|seen|] == seen;
  }

  /** A present parameter is pushed in lock-step; an absent one changes nothing. */
  lemma TracksStep<C>(sets: seq<Assignment<C>>, values: seq<JsValue>, chosen: seq<Field<C>>, f: Field<C>)
    requires Tracks(sets, values, chosen)
    ensures f.present ==> Tracks(sets + [Assignment(f.column, |sets| + 1)], values + [f.value], chosen + Pick(f))
    ensures !f.present ==> Tracks(sets, values, chosen + Pick(f))
  {
    if f.present {
      PushKeepsTracks(sets, values, chosen, f);
    } else {
      assert chosen + Pick(f) == chosen;
    }
  }

  /** One step of a builder, `if (present) { fields.push(`${column} = $${fields.length + 1}`);
      values.push(value) }`: a present parameter is pushed in lock-step, an
      absent one changes nothing. */
  method PushIfPresent<C>(sets: seq<Assignment<C>>, values: seq<JsValue>, f: Field<C>, ghost chosen: seq<Field<C>>)
    returns (sets': seq<Assignment<C>>, values': seq<JsValue>)
    requires Tracks(sets, values, chosen)
    ensures Tracks(sets', values', chosen + Pick(f))
  {
    TracksStep(sets, values, chosen, f);
    if f.present {
      sets' := sets + [Assignment(f.column, |sets| + 1)];
      values' := values + [f.value];
    } else {
      sets', values' := sets, values;
    }
  }

  /** Once every optional parameter is looked at, the tracked arrays give the
      reference statement, or nothing was pushed and it is the error. */
  lemma TracksGivesStatement<C(!new)>(table: string, keyColumn: string, fields: seq<Field<C>>, key: JsValue,
                             sets: seq<Assignment<C>>, values: seq<JsValue>)
    requires Tracks(sets, values, Chosen(fields))
    ensures sets == [] ==> Statement(table, keyColumn, fields, key) == Err(NO_FIELDS_TO_UPDATE)
    ensures sets != [] ==>
              Statement(table, keyColumn, fields, key) == Ok(UpdateStatement(table, sets, keyColumn, |sets| + 1, values + [key]))
  {
  }

  /** Every placeholder of a SET fragment names an existing parameter. */
  ghost predicate PlaceholdersInRange<C>(sets: seq<Assignment<C>>, values: seq<JsValue>)
  {
    forall a :: a in sets ==> 1 <= a.placeholder <= |values|
  }

  lemma WellNumberedInRange<C>(u: UpdateStatement<C>)
    requires WellNumbered(u)
    ensures PlaceholdersInRange(u.sets, u.values)
  {
    forall a | a in u.sets
      ensures 1 <= a.placeholder <= |u.values|
    {
      var k :| 0 <= k < |u.sets| && u.sets[k] == a;
    }
  }

  /** The fields of a builder name distinct columns. */
  ghost predicate DistinctColumns<C>(fields: seq<Field<C>>)
  {
    forall p, q :: 0 <= p < q < |fields| ==> fields[p].column != fields[q].column
  }

  /** Over distinct columns, no two fragments write the same column. */
  lemma StatementColumnsDistinct<C(!new)>(table: string, keyColumn: string, fields: seq<Field<C>>, key: JsValue)
    requires DistinctColumns(fields)
    requires Statement(table, keyColumn, fields, key).Ok?
    ensures var u := Statement(table, keyColumn, fields, key).value;
      forall i, j :: 0 <= i < |u.sets| && 0 <= j < |u.sets| && i != j ==> u.sets[i].column != u.sets[j].column
  {
    var u := Statement(table, keyColumn, fields, key).value;
    forall i, j | 0 <= i < |u.sets| && 0 <= j < |u.sets| && i != j
      ensures u.sets[i].column != u.sets[j].column
    {
      if i < j {
        ColumnsInFieldOrder(table, keyColumn, fields, key, i, j);
      } else {
        ColumnsInFieldOrder(table, keyColumn, fields, key, j, i);
      }
    }
  }

  /** A present field is written by a fragment whose parameter is the field's value. */
  lemma StatementWritesPresentField<C(!new)>(table: string, keyColumn: string, fields: seq<Field<C>>, key: JsValue, f: Field<C>)
    requires Statement(table, keyColumn, fields, key).Ok?
    requires f in fields && f.present
    ensures var u := Statement(table, keyColumn, fields, key).value;
      exists k :: 0 <= k < |u.sets| && u.sets[k].column == f.column && u.values[u.sets[k].placeholder - 1] == f.value
  {
    var u := Statement(table, keyColumn, fields, key).value;
    var chosen := Chosen(fields);
    assert f in chosen;
    var k :| 0 <= k < |chosen| && chosen[k] == f;
    assert u.sets[k].column == f.column;
  }

  /** Over distinct columns, a present field is written by exactly one
      fragment, whose parameter is the field's value. */
  lemma StatementWritesFieldOnce<C(!new)>(table: string, keyColumn: string, fields: seq<Field<C>>, key: JsValue, i: nat)
    returns (k: nat)
    requires DistinctColumns(fields)
    requires i < |fields| && fields[i].present
    requires Statement(table, keyColumn, fields, key).Ok?
    ensures var u := Statement(table, keyColumn, fields, key).value;
      && k < |u.sets|
      && u.sets[k].column == fields[i].column
      && u.values[u.sets[k].placeholder - 1] == fields[i].value
      && forall j :: 0 <= j < |u.sets| && j != k ==> u.sets[j].column != fields[i].column
  {
    var u := Statement(table, keyColumn, fields, key).value;
    assert fields[i] in fields;
    StatementWritesPresentField(table, keyColumn, fields, key, fields[i]);
    k :| 0 <= k < |u.sets| && u.sets[k].column == fields[i].column && u.values[u.sets[k].placeholder - 1] == fields[i].value;
    StatementColumnsDistinct(table, keyColumn, fields, key);
    assert forall j :: 0 <= j < |u.sets| && j != k ==> u.sets[j].column != u.sets[k].column;
  }

  /** Over distinct columns, a column some fragment writes belongs to a present field. */
  lemma StatementWritesOnlyPresent<C(!new)>(table: string, keyColumn: string, fields: seq<Field<C>>, key: JsValue, k: nat, f: Field<C>)
    requires DistinctColumns(fields)
    requires Statement(table, keyColumn, fields, key).Ok?
    requires k < |Statement(table, keyColumn, fields, key).value.sets|
    requires f in fields && f.column == Statement(table, keyColumn, fields, key).value.sets[k].column
    ensures f.present
  {
    var chosen := Chosen(fields);
    var g := chosen[k];
    assert g in chosen;
    var p :| 0 <= p < |fields| && fields[p] == f;
    var q :| 0 <= q < |fields| && fields[q] == g;
    assert !(p < q) && !(q < p);
  }
}
