/** The static scope/field registry the linter checks scripts against. */
module Registry {
  import opened Wrappers

  /** The declared type of a field. */
  datatype FieldType = StringField | IntegerField | ArrayField | EnumField

  /** One permitted field of a scope. `values` lists the allowed spellings of an
      enum field; the empty list stands for the source's absent (`None`) list. */
  datatype FieldDef = FieldDef(name: string, kind: FieldType, required: bool, values: seq<string>)

  /** The fields a scope permits, in declaration order. */
  datatype ScopeDef = ScopeDef(fields: seq<FieldDef>)

  /** Scope definitions keyed by scope name, plus the ordered top-level scope names. */
  datatype Registry = Registry(scopes: map<string, ScopeDef>, topLevel: seq<string>)

  function Field(name: string, kind: FieldType): FieldDef {
    FieldDef(name, kind, false, [])
  }

  /** The registry the linter is configured with. */
  function Ck3Registry(): Registry {
    Registry(
      map[
        "character" := ScopeDef([
          FieldDef("id", StringField, true, []),
          Field("culture", StringField),
          Field("faith", StringField),
          Field("traits", ArrayField)]),
        "title" := ScopeDef([
          FieldDef("id", StringField, true, []),
          Field("holder", StringField),
          FieldDef("rank", EnumField, false, ["baron", "count", "duke", "king", "emperor"])]),
        "province" := ScopeDef([
          FieldDef("id", StringField, true, []),
          FieldDef("terrain", EnumField, false, ["plains", "hills", "mountains", "desert", "forest"]),
          Field("buildings", ArrayField)]),
        "modifier" := ScopeDef([
          FieldDef("id", StringField, true, []),
          Field("duration", IntegerField),
          Field("effects", ArrayField)])
      ],
      ["character", "title", "province", "modifier"])
  }

  /** The names declared in a field list, in order. */
  function Names(fields: seq<FieldDef>): (r: seq<string>)
    ensures |r| == |fields|
    ensures forall i :: 0 <= i < |fields| ==> r[i] == fields[i].name
  {
    seq(|fields|, i requires 0 <= i < |fields| => fields[i].name)
  }

  /** The names of the required fields, in declaration order. */
  function RequiredNames(fields: seq<FieldDef>): seq<string> {
    if |fields| == 0 then []
    else (if fields[0].required then [fields[0].name] else []) + RequiredNames(fields[1..])
  }

  /** A registry in which every top-level name is defined, no scope declares a
      field name twice, and every enum field lists its allowed values. */
  predicate WellFormed(reg: Registry) {
    && (forall t :: t in reg.topLevel ==> t in reg.scopes)
    && (forall s :: s in reg.scopes ==> ScopeWellFormed(reg.scopes[s]))
  }

  /** No field name declared twice; every enum field has allowed values. */
  predicate ScopeWellFormed(sd: ScopeDef) {
    var fs := sd.fields;
    && (forall i, j :: 0 <= i < j < |fs| ==> fs[i].name != fs[j].name)
    && (forall i :: 0 <= i < |fs| ==> fs[i].kind == EnumField ==> |fs[i].values| > 0)
  }

  /** First field in `fields` named `name` (`next(...)` over the field list). */
  function FindIn(fields: seq<FieldDef>, name: string): (r: Option<FieldDef>)
    ensures r.Some? ==> r.value.name == name && r.value in fields
    ensures r.None? <==> name !in Names(fields)
  {
    if |fields| == 0 then None
    else if fields[0].name == name then Some(fields[0])
    else
      assert Names(fields) == [fields[0].name] + Names(fields[1..]);
      FindIn(fields[1..], name)
  }

  /** `FindIn` returns the first field carrying the name: a field preceded only
      by differently named ones is the one found. */
  lemma {:induction false} FindInFirst(fields: seq<FieldDef>, name: string, i: nat)
    requires i < |fields| && fields[i].name == name
    requires forall j :: 0 <= j < i ==> fields[j].name != name
    ensures FindIn(fields, name) == Some(fields[i])
  {
    if i > 0 {
      assert fields[0].name != name;
      FindInFirst(fields[1..], name, i - 1);
    }
  }

  /** The definition of field `field` inside scope `scope`; `None` when the scope
      is not registered or does not declare that field. */
  function FindField(reg: Registry, scope: string, field: string): (r: Option<FieldDef>)
    ensures r.Some? ==> scope in reg.scopes && r.value in reg.scopes[scope].fields
                        && r.value.name == field
    ensures r.None? <==> scope !in reg.scopes || field !in Names(reg.scopes[scope].fields)
  {
    if scope !in reg.scopes then None else FindIn(reg.scopes[scope].fields, field)
  }

  /** In a well-formed registry the field found is the only one of its scope
      carrying that name. */
  lemma FindFieldUnique(reg: Registry, scope: string, field: string)
    requires WellFormed(reg) && FindField(reg, scope, field).Some?
    ensures var fs := reg.scopes[scope].fields;
      forall i :: 0 <= i < |fs| && fs[i].name == field ==> fs[i] == FindField(reg, scope, field).value
  {
    var fs := reg.scopes[scope].fields;
    var k :| 0 <= k < |fs| && fs[k] == FindField(reg, scope, field).value;
    assert ScopeWellFormed(reg.scopes[scope]);
  }

  /** The names of the fields of scope `scope`, as a set; empty for an
      unregistered scope. */
  function FieldNames(reg: Registry, scope: string): (r: set<string>)
    ensures forall f :: f in r <==> FindField(reg, scope, f).Some?
  {
    if scope !in reg.scopes then {}
    else set i | 0 <= i < |reg.scopes[scope].fields| :: reg.scopes[scope].fields[i].name
  }

  /** The built-in registry satisfies the load-time invariants. */
  lemma Ck3RegistryWellFormed()
    ensures WellFormed(Ck3Registry())
  {
    var reg := Ck3Registry();
    forall s | s in reg.scopes
      ensures ScopeWellFormed(reg.scopes[s])
    {
      var fs := reg.scopes[s].fields;
      assert |fs| == 3 || |fs| == 4;
      assert forall i :: 0 <= i < |fs| ==> fs[i].kind == EnumField ==> |fs[i].values| > 0;
      assert forall i, j :: 0 <= i < j < |fs| ==> fs[i].name != fs[j].name;
    }
  }
}
