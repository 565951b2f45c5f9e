/** The values a stored document is made of, once decoded from its JSON text,
    and the JavaScript coercions lib/store.js applies to them: `String(v)`
    (also `""+v`), `Number(v)` (also `v-w`, `isFinite(v)`), `parseFloat`,
    `parseInt` and the `isNumeric` helper. Encoding and decoding are taken to
    be the identity on `Value`. */
module Values {
  import opened Numerals

  /** A decoded JSON value, plus `Undefined` for a field that is not there.
      Numbers are integers. */
  datatype Value =
    | Undefined
    | Null
    | Bool(b: bool)
    | Num(n: int)
    | Str(s: string)
    | Arr(elems: seq<Value>)
    | Obj(fields: map<string, Value>)

  /** A JavaScript object: field name to value. */
  type Record = map<string, Value>

  /** The property read `v.k`. Only objects have fields in the model. */
  function Field(v: Value, k: string): (r: Value)
    ensures v.Obj? && k in v.fields ==> r == v.fields[k]
    ensures !(v.Obj? && k in v.fields) ==> r == Undefined
  {
    if v.Obj? && k in v.fields then v.fields[k] else Undefined
  }

  /** An object written with `JSON.stringify` and read back with
      `JSON.parse`: fields whose value is `undefined` are left out. */
  function Stringify(r: Record): (r': Record)
    ensures forall k :: k in r' <==> k in r && r[k] != Undefined
    ensures forall k | k in r' :: r'[k] == r[k]
  {
    map k | k in r && r[k] != Undefined :: r[k]
  }

  /** A value written with `JSON.stringify` and read back with `JSON.parse`. */
  function Serialize(v: Value): Value {
    if v.Obj? then Obj(Stringify(v.fields)) else v
  }

  /** Serialising loses nothing a property read can see: a left-out field
      reads as `undefined`, as it did before. */
  lemma SerializeKeepsFieldReads(v: Value, k: string)
    ensures Field(Serialize(v), k) == Field(v, k)
  {
  }

  /** `String(v)`. An array is its elements joined with commas, where
      `null` and `undefined` elements give the empty string. */
  function ToStr(v: Value): string
    decreases v
  {
    match v
    case Undefined => "undefined"
    case Null => "null"
    case Bool(b) => if b then "true" else "false"
    case Num(n) => IntToString(n)
    case Str(s) => s
    case Arr(es) =>
      Join(seq(|es|, i requires 0 <= i < |es| =>
        if es[i].Null? || es[i].Undefined? then "" else ToStr(es[i])))
    case Obj(_) => "[object Object]"
  }

  /** `parts.join(",")`. */
  function Join(parts: seq<string>): (r: string)
    ensures |parts| == 1 ==> r == parts[0]
    ensures parts == [] ==> r == ""
  {
    if parts == [] then ""
    else if |parts| == 1 then parts[0]
    else parts[0] + "," + Join(parts[1..])
  }

  /** `Number(v)`; None stands for NaN. The empty string converts to 0, and
      an array converts through its string. */
  function ToNumber(v: Value): Option<int> {
    match v
    case Undefined => None
    case Null => Some(0)
    case Bool(b) => Some(if b then 1 else 0)
    case Num(n) => Some(n)
    case Str(s) => StringToNumber(s)
    case Arr(_) => StringToNumber(ToStr(v))
    case Obj(_) => None
  }

  /** `Number(s)` for a string. */
  function StringToNumber(s: string): Option<int> {
    if s == "" then Some(0) else ParseInteger(s)
  }

  /** `parseFloat(v)` and `parseInt(v)`, which agree on integers: the number
      at the front of `String(v)`; None stands for NaN. */
  function ParseLeading(v: Value): Option<int> {
    ParseIntegerPrefix(ToStr(v))
  }

  /** `isNumeric(n)`: `!isNaN(parseFloat(n)) && isFinite(n)`. */
  predicate IsNumeric(v: Value) {
    ParseLeading(v).Some? && ToNumber(v).Some?
  }

  /** `!!v`. */
  predicate Falsy(v: Value) {
    match v
    case Undefined => true
    case Null => true
    case Bool(b) => !b
    case Num(n) => n == 0
    case Str(s) => s == ""
    case Arr(_) => false
    case Obj(_) => false
  }

  /** The hash field an id addresses: the client sends `String(id)`. */
  function KeyOf(id: Value): string {
    ToStr(id)
  }

  lemma ParseLeadingOfNum(n: int)
    ensures ParseLeading(Num(n)) == Some(n)
  {
    ParseIntegerOfIntToString(n);
    PrefixOfInteger(IntToString(n));
  }

  /** Reading a pagination option the way lib/store.js does
      (`isNumeric(v) ? parseInt(v) : default`): a numeric option is read as
      the number it denotes, anything else gives the default. */
  function ReadOption(v: Value, default: int): (r: int)
    ensures IsNumeric(v) ==> ToNumber(v) == Some(r)
    ensures !IsNumeric(v) ==> r == default
  {
    if IsNumeric(v) then
      NumericReadsAsNumber(v);
      ParseLeading(v).value
    else default
  }

  lemma NumericReadsAsNumber(v: Value)
    requires IsNumeric(v)
    ensures ParseLeading(v) == ToNumber(v)
  {
    NonNumbersDoNotParse();
    match v
    case Num(n) => ParseLeadingOfNum(n);
    case Str(s) =>
      assert s != "";
      PrefixOfInteger(s);
    case Arr(_) =>
      assert ToStr(v) != "";
      PrefixOfInteger(ToStr(v));
    case _ =>
  }

  /** `parseFloat` of `undefined`, `null`, a boolean or an object is NaN. */
  lemma NonNumbersDoNotParse()
    ensures ParseLeading(Undefined).None? && ParseLeading(Null).None?
    ensures forall b :: ParseLeading(Bool(b)).None?
    ensures forall m :: ParseLeading(Obj(m)).None?
  {
    assert LeadingDigits("undefined") == 0;
    assert LeadingDigits("null") == 0;
    assert LeadingDigits("true") == 0;
    assert LeadingDigits("false") == 0;
    assert LeadingDigits("[object Object]") == 0;
  }

  /** An option given as a number, or as the decimal string of one (as a
      query string delivers it), is read as that number. */
  lemma ReadOptionOfNumber(n: int, default: int)
    ensures ReadOption(Num(n), default) == n
    ensures ReadOption(Str(IntToString(n)), default) == n
  {
    ParseLeadingOfNum(n);
    ParseIntegerOfIntToString(n);
    PrefixOfInteger(IntToString(n));
  }

  /** Arrays coerce through their joined string: `[]` is 0 to `Number` but
      NaN to `parseInt`, `[5]` reads as 5, `[1, 2]` is NaN, and every array
      is truthy. */
  lemma ArrayCoercions()
    ensures ToNumber(Arr([])) == Some(0) && ParseLeading(Arr([])).None?
    ensures ReadOption(Arr([Num(5)]), 0) == 5
    ensures ToNumber(Arr([Num(1), Num(2)])).None?
    ensures !Falsy(Arr([]))
  {
    ParseIntegerOfIntToString(5);
    assert ToStr(Arr([Num(5)])) == IntToString(5);
    ReadOptionOfNumber(5, 0);
    assert ToStr(Arr([Num(1), Num(2)])) == IntToString(1) + "," + IntToString(2);
    assert IntToString(1) == "1" && IntToString(2) == "2";
    assert ToStr(Arr([Num(1), Num(2)])) == "1,2";
    assert "1,2"[0] == '1' && "1,2"[1] == ',';
    assert !AllDigits("1,2");
  }

  /** An absent option and non-numeric values such as `null`, `true` or a
      word fall back to the default. */
  lemma ReadOptionDefaults(default: int)
    ensures ReadOption(Undefined, default) == default
    ensures ReadOption(Null, default) == default
    ensures ReadOption(Bool(true), default) == default
    ensures ReadOption(Str("all"), default) == default
  {
    NonNumbersDoNotParse();
    assert LeadingDigits("all") == 0;
  }
}
