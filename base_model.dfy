/** `BaseModel` (src/models/base.ts): building a model from a raw record
    against its table's describe, and the query-safe clone of a model. */
module Base {
  import opened Wrappers
  import opened Text
  import opened StringUtils
  import opened Constants
  import opened Records
  import opened Describe

  /** Some field of the describe has this name. */
  predicate HasField(fields: seq<FieldDescribe>, name: string) {
    exists j | 0 <= j < |fields| :: fields[j].name == name
  }

  /** `fields.find((field) => field.name === name)` */
  function FindField(fields: seq<FieldDescribe>, name: string): (r: Option<FieldDescribe>)
    ensures r.Some? <==> HasField(fields, name)
    ensures r.Some? ==> r.value.name == name && r.value in fields
  {
    if fields == [] then None
    else if fields[0].name == name then Some(fields[0])
    else
      assert HasField(fields, name) ==> HasField(fields[1..], name) by {
        if HasField(fields, name) {
          var j :| 0 <= j < |fields| && fields[j].name == name;
          assert fields[1..][j - 1] == fields[j];
        }
      }
      FindField(fields[1..], name)
  }

  /** `find` returns the first field of that name: no earlier field has it. */
  lemma {:induction false} FindFieldIsFirst(fields: seq<FieldDescribe>, name: string)
    requires HasField(fields, name)
    ensures exists j | 0 <= j < |fields| :: fields[j] == FindField(fields, name).value && !HasField(fields[..j], name)
  {
    if fields[0].name == name {
      assert fields[..0] == [];
    } else {
      FindFieldIsFirst(fields[1..], name);
      var j :| 0 <= j < |fields[1..]| && fields[1..][j] == FindField(fields[1..], name).value && !HasField(fields[1..][..j], name);
      assert fields[1..][..j] == fields[1..j + 1];
      assert !HasField(fields[..j + 1], name) by {
        var prefix := fields[..j + 1];
        forall k | 0 <= k < j + 1 ensures prefix[k].name != name {
          if k > 0 { assert prefix[k] == fields[1..][..j][k - 1]; }
        }
      }
    }
  }

  /** The value `from` stores for a record entry: the coerced value when the
      first field of that name has the boolean column type, the value as
      given otherwise. */
  function StoredValue(describe: TableDescribe, settings: Settings, key: string, value: Value): Value {
    var field := FindField(describe.fields, StripSuffix(key));
    if field.Some? && field.value.columnType == settings.booleanType then Coerce(value) else value
  }

  /** A boolean column stores a boolean: a boolean as given, `1` as true,
      `0` as false; any other column stores the value as given. */
  lemma StoredValueCases(describe: TableDescribe, settings: Settings, key: string, value: Value)
    ensures var field := FindField(describe.fields, StripSuffix(key));
            field.Some? && field.value.columnType == settings.booleanType ==>
              && StoredValue(describe, settings, key, value).Bool?
              && (value.Bool? ==> StoredValue(describe, settings, key, value) == value)
              && (value == Num(1) ==> StoredValue(describe, settings, key, value) == Bool(true))
              && (value == Num(0) ==> StoredValue(describe, settings, key, value) == Bool(false))
    ensures var field := FindField(describe.fields, StripSuffix(key));
            !(field.Some? && field.value.columnType == settings.booleanType) ==>
              StoredValue(describe, settings, key, value) == value
  {
  }

  /** `m` holds what `from` has stored after the first `n` entries of the
      record: the declared properties and the fields named so far, each
      named field with the stored value of the last entry naming it, each
      declared property not named so far with its initial value. */
  ghost predicate Built(m: Fields, declared: Fields, record: Record, n: int, describe: TableDescribe, settings: Settings)
    requires 0 <= n <= |record|
  {
    && m.Keys == declared.Keys + StrippedPrefix(record, n)
    && (forall k | k in declared && k !in StrippedPrefix(record, n) :: m[k] == declared[k])
    && (forall j | 0 <= j < n && LastBefore(record, j, n) ::
          m[StripSuffix(record[j].0)] == StoredValue(describe, settings, record[j].0, record[j].1))
  }

  /** Storing the next entry's value extends what has been built by one entry. */
  lemma BuiltStep(m: Fields, declared: Fields, record: Record, n: int, describe: TableDescribe, settings: Settings)
    requires 0 <= n < |record|
    requires Built(m, declared, record, n, describe, settings)
    ensures Built(m[StripSuffix(record[n].0) := StoredValue(describe, settings, record[n].0, record[n].1)],
                  declared, record, n + 1, describe, settings)
  {
    var name := StripSuffix(record[n].0);
    var v := StoredValue(describe, settings, record[n].0, record[n].1);
    StrippedPrefixStep(record, n);
    BuiltStepUntouched(m, declared, record, n, name, v);
    BuiltStepLastWins(m, declared, record, n, describe, settings);
  }

  /** Storing under the next entry's field leaves the other declared properties alone. */
  lemma BuiltStepUntouched(m: Fields, declared: Fields, record: Record, n: int, name: string, v: Value)
    requires 0 <= n < |record| && name == StripSuffix(record[n].0)
    requires m.Keys == declared.Keys + StrippedPrefix(record, n)
    requires forall k | k in declared && k !in StrippedPrefix(record, n) :: m[k] == declared[k]
    ensures forall k | k in declared && k !in StrippedPrefix(record, n + 1) :: m[name := v][k] == declared[k]
  {
    StrippedPrefixStep(record, n);
  }

  /** The entry stored last wins for its field; earlier last entries keep their values. */
  lemma BuiltStepLastWins(m: Fields, declared: Fields, record: Record, n: int, describe: TableDescribe, settings: Settings)
    requires 0 <= n < |record|
    requires m.Keys == declared.Keys + StrippedPrefix(record, n)
    requires forall j | 0 <= j < n && LastBefore(record, j, n) ::
               m[StripSuffix(record[j].0)] == StoredValue(describe, settings, record[j].0, record[j].1)
    ensures var m' := m[StripSuffix(record[n].0) := StoredValue(describe, settings, record[n].0, record[n].1)];
            forall j | 0 <= j < n + 1 && LastBefore(record, j, n + 1) ::
              m'[StripSuffix(record[j].0)] == StoredValue(describe, settings, record[j].0, record[j].1)
  {
    var m' := m[StripSuffix(record[n].0) := StoredValue(describe, settings, record[n].0, record[n].1)];
    forall j | 0 <= j < n + 1 && LastBefore(record, j, n + 1)
      ensures m'[StripSuffix(record[j].0)] == StoredValue(describe, settings, record[j].0, record[j].1)
    {
      if j < n {
        LastBeforeStep(record, j, n);
      }
    }
  }

  /** The value a query-safe clone holds for a property value: strings have
      their single quotes escaped, everything else is copied. */
  function QuerySafe(v: Value): (r: Value)
    ensures r.Str? <==> v.Str?
    ensures !v.Str? ==> r == v
    ensures v.Str? ==> |r.s| == |v.s| + CountChar(v.s, '\'')
  {
    if v.Str? then Str(EscapeSingleQuotes(v.s)) else v
  }

  /** A clone value reads back as the original once the escaping backslashes
      are dropped, and a quote in it never stands unescaped. */
  lemma QuerySafeRoundTrip(v: Value)
    ensures v.Str? ==> DropBeforeQuotes(QuerySafe(v).s) == v.s
    ensures v.Str? ==> forall i :: 0 <= i < |QuerySafe(v).s| && QuerySafe(v).s[i] == '\'' ==>
              0 < i && QuerySafe(v).s[i - 1] == '\\'
  {
    if v.Str? {
      EscapeRoundTrip(v.s);
    }
  }

  /** A model instance: its own properties. */
  class BaseModel {
    var fields: Fields

    /** `new this()`: the instance starts with the properties its class
        declares with an initial value, `declared`. */
    constructor (declared: Fields)
      ensures fields == declared
    {
      fields := declared;
    }

    /** `BaseModel.from(record)` for the model class `className` whose table
        has the describe `describe`. Each key, with one trailing `_x`
        dropped, must name a field of the describe; the first key that does
        not ends the call with the message formatted from that key (as
        given) and the class name. Otherwise the model holds the properties
        its class declares and the named fields, each named field with the
        value of the last key that names it, coerced when the field is a
        boolean column; a declared property no key names keeps its value. */
    static method From(describe: TableDescribe, record: Record, className: string, declared: Fields, settings: Settings)
      returns (r: Result<BaseModel, string>)
      ensures r.Failure? <==> exists i | 0 <= i < |record| :: !HasField(describe.fields, StripSuffix(record[i].0))
      ensures r.Failure? ==> exists i | 0 <= i < |record| ::
                && !HasField(describe.fields, StripSuffix(record[i].0))
                && (forall j | 0 <= j < i :: HasField(describe.fields, StripSuffix(record[j].0)))
                && r.error == Format(settings.fieldDoesNotExistMessage, [record[i].0, className])
      ensures r.Success? ==> fresh(r.value) && r.value.fields.Keys == declared.Keys + StrippedKeys(record)
      ensures r.Success? ==> forall k | k in declared && k !in StrippedKeys(record) :: r.value.fields[k] == declared[k]
      ensures r.Success? ==> forall i | 0 <= i < |record| && LastFor(record, i) ::
                r.value.fields[StripSuffix(record[i].0)] == StoredValue(describe, settings, record[i].0, record[i].1)
    {
      var model := new BaseModel(declared);
      var i := 0;
      while i < |record|
        invariant 0 <= i <= |record|
        invariant fresh(model)
        invariant forall j | 0 <= j < i :: HasField(describe.fields, StripSuffix(record[j].0))
        invariant Built(model.fields, declared, record, i, describe, settings)
      {
        var key := record[i].0;
        var name := StripSuffix(key);
        var field := FindField(describe.fields, name);
        if field.None? {
          r := Failure(Format(settings.fieldDoesNotExistMessage, [key, className]));
          assert !HasField(describe.fields, StripSuffix(record[i].0));
          return;
        }
        var value := record[i].1;
        if field.value.columnType == settings.booleanType {
          value := if value.Bool? then value else Bool(LooselyEqualsOne(value));
        }
        assert value == StoredValue(describe, settings, record[i].0, record[i].1);
        BuiltStep(model.fields, declared, record, i, describe, settings);
        model.fields := model.fields[name := value];
        i := i + 1;
      }
      r := Success(model);
    }

    /** `createQuerySafeClone()` against this model's describe: a new record
        holding each described field whose value is neither `null` nor
        `undefined`, string values escaped; the model itself is not changed. */
    method CreateQuerySafeClone(describe: TableDescribe) returns (clone: Fields)
      ensures forall name :: name in clone <==> HasField(describe.fields, name) && !IsNullish(Lookup(fields, name))
      ensures forall name | name in clone :: name in fields && clone[name] == QuerySafe(fields[name])
    {
      clone := map[];
      var i := 0;
      while i < |describe.fields|
        invariant 0 <= i <= |describe.fields|
        invariant forall name :: name in clone <==> HasField(describe.fields[..i], name) && !IsNullish(Lookup(fields, name))
        invariant forall name | name in clone :: name in fields && clone[name] == QuerySafe(fields[name])
      {
        var field := describe.fields[i];
        var value := Lookup(fields, field.name);
        assert describe.fields[..i + 1] == describe.fields[..i] + [field];
        if !IsNullish(value) {
          if value.Str? {
            value := Str(EscapeSingleQuotes(value.s));
          }
          clone := clone[field.name := value];
        }
        i := i + 1;
      }
      assert describe.fields[..i] == describe.fields;
    }
  }
}
