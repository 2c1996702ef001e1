/** `GenericModel` (src/models/generic.ts): a model filled from a record
    whose keys must name properties the instance already has. */
module Generic {
  import opened Wrappers
  import opened Constants
  import opened Records

  /** The properties after the first `n` entries of a record have been
      assigned, in order, onto `m`. */
  function AssignedPrefix(m: Fields, record: Record, n: nat): Fields
    requires n <= |record|
  {
    if n == 0 then m
    else AssignedPrefix(m, record, n - 1)[StripSuffix(record[n - 1].0) := record[n - 1].1]
  }

  /** Assigning the first `n` entries adds exactly the fields they name;
      when every one of them was already a property, no property is added. */
  lemma {:induction false} AssignedPrefixKeys(m: Fields, record: Record, n: nat)
    requires n <= |record|
    ensures AssignedPrefix(m, record, n).Keys == m.Keys + StrippedPrefix(record, n)
    ensures StrippedPrefix(record, n) <= m.Keys ==> AssignedPrefix(m, record, n).Keys == m.Keys
  {
    if n > 0 {
      AssignedPrefixKeys(m, record, n - 1);
      assert StrippedPrefix(record, n) == StrippedPrefix(record, n - 1) + {StripSuffix(record[n - 1].0)};
    }
  }

  /** A property no assigned entry names keeps its value. */
  lemma {:induction false} AssignedPrefixUntouched(m: Fields, record: Record, n: nat, k: string)
    requires n <= |record|
    requires k in m && k !in StrippedPrefix(record, n)
    ensures k in AssignedPrefix(m, record, n) && AssignedPrefix(m, record, n)[k] == m[k]
  {
    if n > 0 {
      assert StrippedPrefix(record, n) == StrippedPrefix(record, n - 1) + {StripSuffix(record[n - 1].0)};
      AssignedPrefixUntouched(m, record, n - 1, k);
    }
  }

  /** A field holds the value of the last assigned entry naming it. */
  lemma {:induction false} AssignedPrefixLastWins(m: Fields, record: Record, n: nat, j: nat)
    requires j < n <= |record|
    requires LastBefore(record, j, n)
    ensures StripSuffix(record[j].0) in AssignedPrefix(m, record, n)
    ensures AssignedPrefix(m, record, n)[StripSuffix(record[j].0)] == record[j].1
  {
    if j < n - 1 {
      LastBeforeStep(record, j, n - 1);
      AssignedPrefixLastWins(m, record, n - 1, j);
    }
  }

  /** A model instance: its own properties. */
  class GenericModel {
    var fields: Fields

    /** The instance before the constructor body runs: the properties
        declared with an initial value, `declared`. */
    constructor (declared: Fields)
      ensures fields == declared
    {
      fields := declared;
    }

    /** The body of `new GenericModel(record)`. The property names are taken
        once, before any assignment. Each key, with one trailing `_x`
        dropped, must be one of them: the first key that is not ends the
        call with the unformatted field-does-not-exist message, the keys
        before it having been assigned already. Otherwise every entry is
        assigned in order. */
    method Assign(record: Record) returns (outcome: Outcome<string>)
      modifies this
      ensures outcome.Fail? <==> exists i | 0 <= i < |record| :: StripSuffix(record[i].0) !in old(fields)
      ensures outcome.Fail? ==> outcome.error == FieldDoesNotExist && exists i | 0 <= i < |record| ::
                && StripSuffix(record[i].0) !in old(fields)
                && (forall j | 0 <= j < i :: StripSuffix(record[j].0) in old(fields))
                && fields == AssignedPrefix(old(fields), record, i)
      ensures outcome.Pass? ==> fields == AssignedPrefix(old(fields), record, |record|)
    {
      var classFields := fields.Keys;
      var i := 0;
      while i < |record|
        invariant 0 <= i <= |record|
        invariant classFields == old(fields).Keys
        invariant forall j | 0 <= j < i :: StripSuffix(record[j].0) in classFields
        invariant fields == AssignedPrefix(old(fields), record, i)
      {
        var convertedKey := StripSuffix(record[i].0);
        if convertedKey !in classFields {
          return Fail(FieldDoesNotExist);
        }
        fields := fields[convertedKey := record[i].1];
        i := i + 1;
      }
      return Pass;
    }
  }
}
