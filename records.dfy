/** The JavaScript values that flow through the model layer, and the two
    rules it applies to incoming records: the `_x` key suffix and boolean
    coercion. */
module Records {
  import opened Text
  import opened StringUtils

  /** A property value: a string, a number (integral in this model), a
      boolean, `null` or `undefined`. */
  datatype Value = Str(s: string) | Num(n: int) | Bool(b: bool) | Null | Undef

  /** An incoming record: its own keys in `Object.keys` order, with values. */
  type Record = seq<(string, Value)>

  /** The own properties of an object; an absent key reads as `undefined`. */
  type Fields = map<string, Value>

  /** `value == null` */
  predicate IsNullish(v: Value) {
    v.Null? || v.Undef?
  }

  /** `obj[name]` */
  function Lookup(fields: Fields, name: string): Value {
    if name in fields then fields[name] else Undef
  }

  /** `key.replace(/_x$/, '')`: one trailing `_x` removed. */
  function StripSuffix(key: string): (name: string)
    ensures IsSuffix("_x", key) ==> name + "_x" == key
    ensures !IsSuffix("_x", key) ==> name == key
  {
    if IsSuffix("_x", key) then key[..|key| - 2] else key
  }

  /** Adding the `_x` marker to a name and stripping it gives the name back,
      whatever the name ends with. */
  lemma StripSuffixInverse(name: string)
    ensures StripSuffix(name + "_x") == name
  {
    assert (name + "_x")[..|name|] == name;
  }

  /** The field names that the first `n` keys of a record stand for. */
  function StrippedPrefix(record: Record, n: int): set<string>
    requires 0 <= n <= |record|
  {
    set i | 0 <= i < n :: StripSuffix(record[i].0)
  }

  /** One more entry adds the field its key stands for. */
  lemma StrippedPrefixStep(record: Record, n: int)
    requires 0 <= n < |record|
    ensures StrippedPrefix(record, n + 1) == StrippedPrefix(record, n) + {StripSuffix(record[n].0)}
  {
  }

  /** The field names a record's keys stand for. */
  function StrippedKeys(record: Record): set<string> {
    StrippedPrefix(record, |record|)
  }

  /** No key between position `i` and `n` stands for the same field as the key at `i`. */
  predicate LastBefore(record: Record, i: int, n: int)
    requires 0 <= i < n <= |record|
  {
    forall j :: i < j < n ==> StripSuffix(record[j].0) != StripSuffix(record[i].0)
  }

  /** Dropping the key at `n` keeps a key last for its field before `n`. */
  lemma LastBeforeStep(record: Record, i: int, n: int)
    requires 0 <= i < n < |record| && LastBefore(record, i, n + 1)
    ensures LastBefore(record, i, n)
    ensures StripSuffix(record[n].0) != StripSuffix(record[i].0)
  {
  }

  /** The key at `i` is the last one standing for its field: its value is the one kept. */
  predicate LastFor(record: Record, i: int)
    requires 0 <= i < |record|
  {
    LastBefore(record, i, |record|)
  }

  /** The white space that JavaScript's string-to-number conversion trims. */
  predicate IsStrWhiteSpace(c: char) {
    || c == '\t' || c == '\U{000B}' || c == '\U{000C}' || c == ' ' || c == '\U{00A0}'
    || c == '\U{FEFF}' || c == '\U{1680}' || ('\U{2000}' <= c <= '\U{200A}')
    || c == '\U{202F}' || c == '\U{205F}' || c == '\U{3000}' || IsLineTerminator(c)
  }

  function TrimStart(s: string): string {
    if s != [] && IsStrWhiteSpace(s[0]) then TrimStart(s[1..]) else s
  }

  function TrimEnd(s: string): string {
    if s != [] && IsStrWhiteSpace(s[|s| - 1]) then TrimEnd(s[..|s| - 1]) else s
  }

  /** `s == 1` for a string `s` written as a decimal numeral: after trimming,
      an optional `+`, the digits of 1 with leading zeros, and an optional
      fraction of zeros. */
  predicate IsNumericOne(s: string) {
    var t := TrimEnd(TrimStart(s));
    var u := if t != [] && t[0] == '+' then t[1..] else t;
    var k := DigitRun(u);
    && k > 0
    && u[k - 1] == '1'
    && (forall i :: 0 <= i < k - 1 ==> u[i] == '0')
    && (k == |u| || (u[k] == '.' && forall i :: k < i < |u| ==> u[i] == '0'))
  }

  /** `value == 1` (loose equality). */
  predicate LooselyEqualsOne(v: Value) {
    match v
    case Str(s) => IsNumericOne(s)
    case Num(n) => n == 1
    case Bool(b) => b
    case Null => false
    case Undef => false
  }

  /** Loose `== 1` on the other kinds of value: a number equals 1 only when
      it is 1, a boolean only when it is true, null and undefined never. */
  lemma LooseEqualityOfNonStrings(n: int, b: bool)
    ensures LooselyEqualsOne(Num(n)) <==> n == 1
    ensures LooselyEqualsOne(Bool(b)) <==> b
    ensures !LooselyEqualsOne(Null) && !LooselyEqualsOne(Undef)
  {
  }

  /** A string reading as the numeral 1 equals 1, leading zeros allowed. */
  lemma NumeralsOfOne()
    ensures IsNumericOne("1") && IsNumericOne("01")
  {
  }

  /** Another numeral or a negative one does not. */
  lemma OtherNumerals()
    ensures !IsNumericOne("10") && !IsNumericOne("-1")
  {
  }

  /** `typeof value === 'boolean' ? value : value == 1`, the coercion applied
      to the values of boolean columns. */
  function Coerce(v: Value): (r: Value)
    ensures r.Bool?
  {
    if v.Bool? then v else Bool(LooselyEqualsOne(v))
  }

  /** How a boolean column stores a boolean: 1 or 0. */
  function ColumnValue(b: bool): Value {
    Num(if b then 1 else 0)
  }

  /** Coercion reads back the stored 0/1 as the boolean it stands for, and
      leaves a value it produced alone. */
  lemma CoerceReadsColumnValue(b: bool, v: Value)
    ensures Coerce(ColumnValue(b)) == Bool(b)
    ensures Coerce(Bool(b)) == Bool(b)
    ensures Coerce(Coerce(v)) == Coerce(v)
  {
  }
}
