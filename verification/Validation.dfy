/** The request validator (src/middleware/validation-core.ts): mutually recursive checks that push
    into one shared error list, against a predicate that says when data conforms to a schema. */
module Validation {
  import opened Text

  // --- data and schemas ------------------------------------------------------------------------

  /** A number of the data: a double is finite or infinite (1e999 parses as Infinity). */
  datatype Num = NegInf | Finite(r: real) | PosInf
  {
    predicate Less(other: Num) {
      match (this, other)
      case (Finite(a), Finite(b)) => a < b
      case (NegInf, _) => !other.NegInf?
      case (PosInf, _) => false
      case (_, PosInf) => true
      case (_, NegInf) => false
    }

    predicate IsInteger() {
      Finite? && r == r.Floor as real
    }
  }

  /** What a request carries once parsed; undefined is a missing member. */
  datatype Data =
    | Null
    | Bool(b: bool)
    | Number(n: Num)
    | Str(s: string)
    | Arr(items: seq<Data>)
    | Obj(members: seq<Member>)

  datatype Member = Member(key: string, value: Data)

  /** SchemaProperty. Absent options are None; `fields` is its `properties`. */
  datatype Property = Property(
    kind: Option<string>,
    format: Option<string>,
    pattern: Option<string>,
    required: bool,
    minLength: Option<int>,
    maxLength: Option<int>,
    minimum: Option<Num>,
    maximum: Option<Num>,
    exclusiveMinimum: Option<Num>,
    exclusiveMaximum: Option<Num>,
    minItems: Option<int>,
    maxItems: Option<int>,
    values: Option<seq<Data>>,
    items: Items,
    fields: Fields,
    requiredProperties: seq<string>)

  datatype Items = AnyItems | Each(item: Property)

  datatype Fields = Undeclared | Declared(list: seq<Field>)

  datatype Field = Field(key: string, prop: Property)

  datatype Schema = Schema(fields: Fields, required: seq<string>, additionalProperties: bool)

  /** The JavaScript library: regular expressions (None is a pattern that does not compile), the
      date parser and the URL parser. */
  datatype Library = Library(
    matches: (string, string) -> Option<bool>,
    parsesAsDate: string -> bool,
    parsesAsUrl: string -> bool)

  const DATE_PATTERN := "^\\d{4}-\\d{2}-\\d{2}$"
  const UUID_PATTERN := "(?i)^[0-9a-f]{8}-[0-9a-f]{4}-[1-5][0-9a-f]{3}-[89ab][0-9a-f]{3}-[0-9a-f]{12}$"
  const EMAIL_PATTERN := "^[^\\s@]+@[^\\s@]+\\.[^\\s@]+$"

  // --- what is reported -----------------------------------------------------------------------

  datatype Message =
    | MustBe(kind: string)
    | PatternMismatch
    | BadPattern
    | TooShort(min: int)
    | TooLong(max: int)
    | AtLeast(low: Num)
    | AtMost(high: Num)
    | GreaterThan(low: Num)
    | LessThan(high: Num)
    | TooFewItems(min: int)
    | TooManyItems(max: int)
    | NotOneOf(values: seq<Data>)
    | ItemMustBe(index: nat, kind: string)
    | Required(name: string)
    | InvalidFormat(format: string)
    | NotAllowed

  datatype FieldError = FieldError(field: string, message: Message)

  // --- the single checks -----------------------------------------------------------------------

  /** String length as JavaScript counts it, in UTF-16 code units. */
  function Length(s: string): nat {
    if s == "" then 0 else Length(s[..|s| - 1]) + if s[|s| - 1] > '\U{FFFF}' then 2 else 1
  }

  function Lookup(members: seq<Member>, key: string): Option<Data> {
    if members == [] then None
    else if members[0].key == key then Some(members[0].value)
    else Lookup(members[1..], key)
  }

  /** A member that is neither undefined nor null. */
  predicate Present(members: seq<Member>, key: string) {
    var value := Lookup(members, key);
    value.Some? && !value.value.Null?
  }

  predicate HasKind(value: Data, kind: Option<string>) {
    match kind
    case None => true
    case Some(k) =>
      if k == "string" then value.Str?
      else if k == "number" then value.Number?
      else if k == "integer" then value.Number? && value.n.IsInteger()
      else if k == "boolean" then value.Bool?
      else if k == "array" then value.Arr?
      else if k == "object" then value.Obj? || value.Null?
      else true
  }

  /** SameValueZero against values of a schema: a parsed object or array is never the same one. */
  predicate Includes(values: seq<Data>, value: Data) {
    !value.Arr? && !value.Obj? && value in values
  }

  // --- what each check adds to the error list --------------------------------------------------

  type Log = seq<FieldError>

  function Add(log: Log, key: string, message: Message): (r: Log) {
    log + [FieldError(key, message)]
  }

  function PatternLog(lib: Library, key: string, value: Data, prop: Property, log: Log): Log {
    if prop.pattern.None? || prop.pattern.value == "" || !value.Str? then log
    else
      match lib.matches(prop.pattern.value, value.s)
      case None => Add(log, key, BadPattern)
      case Some(ok) => if ok then log else Add(log, key, PatternMismatch)
  }

  function LengthLog(key: string, value: Data, prop: Property, log: Log): Log {
    if !value.Str? then log
    else
      var log1 := if prop.minLength.Some? && Length(value.s) < prop.minLength.value
                  then Add(log, key, TooShort(prop.minLength.value)) else log;
      if prop.maxLength.Some? && Length(value.s) > prop.maxLength.value
      then Add(log1, key, TooLong(prop.maxLength.value)) else log1
  }

  function RangeLog(key: string, value: Data, prop: Property, log: Log): Log {
    if !value.Number? then log
    else
      var log1 := if prop.minimum.Some? && value.n.Less(prop.minimum.value)
                  then Add(log, key, AtLeast(prop.minimum.value)) else log;
      var log2 := if prop.maximum.Some? && prop.maximum.value.Less(value.n)
                  then Add(log1, key, AtMost(prop.maximum.value)) else log1;
      var log3 := if prop.exclusiveMinimum.Some? && !prop.exclusiveMinimum.value.Less(value.n)
                  then Add(log2, key, GreaterThan(prop.exclusiveMinimum.value)) else log2;
      if prop.exclusiveMaximum.Some? && !value.n.Less(prop.exclusiveMaximum.value)
      then Add(log3, key, LessThan(prop.exclusiveMaximum.value)) else log3
  }

  function SizeLog(key: string, value: Data, prop: Property, log: Log): Log {
    if !value.Arr? then log
    else
      var log1 := if prop.minItems.Some? && |value.items| < prop.minItems.value
                  then Add(log, key, TooFewItems(prop.minItems.value)) else log;
      if prop.maxItems.Some? && |value.items| > prop.maxItems.value
      then Add(log1, key, TooManyItems(prop.maxItems.value)) else log1
  }

  function BoundsLog(key: string, value: Data, prop: Property, log: Log): Log {
    SizeLog(key, value, prop, RangeLog(key, value, prop, LengthLog(key, value, prop, log)))
  }

  function EnumLog(key: string, value: Data, prop: Property, log: Log): Log {
    if prop.values.Some? && !Includes(prop.values.value, value) then Add(log, key, NotOneOf(prop.values.value)) else log
  }

  predicate FormatHolds(lib: Library, format: string, s: string) {
    if format == "date" then lib.matches(DATE_PATTERN, s) == Some(true) && lib.parsesAsDate(s)
    else if format == "date-time" then lib.parsesAsDate(s)
    else if format == "uuid" then lib.matches(UUID_PATTERN, s) == Some(true)
    else if format == "email" then lib.matches(EMAIL_PATTERN, s) == Some(true)
    else if format == "uri" then lib.parsesAsUrl(s)
    else true
  }

  function FormatLog(lib: Library, key: string, value: Data, prop: Property, log: Log): Log {
    if prop.format.Some? && value.Str? && !FormatHolds(lib, prop.format.value, value.s)
    then Add(log, key, InvalidFormat(prop.format.value)) else log
  }

  function ItemKey(key: string, i: nat): string {
    key + "[" + NatText(i) + "]"
  }

  function NestedKey(key: string, name: string): string {
    key + "." + name
  }

  /** validateProperty: the list after the check; None when it throws. */
  function PropertyLog(lib: Library, key: string, value: Data, prop: Property, log: Log): Option<Log>
    decreases prop, 5
  {
    if !HasKind(value, prop.kind) then Some(Add(log, key, MustBe(prop.kind.value)))
    else
      var log1 := EnumLog(key, value, prop, BoundsLog(key, value, prop, PatternLog(lib, key, value, prop, log)));
      match ItemsLog(lib, key, value, prop, log1)
      case None => None
      case Some(log2) =>
        match NestedLog(lib, key, value, prop, log2)
        case None => None
        case Some(log3) => Some(FormatLog(lib, key, value, prop, log3))
  }

  /** validateItems */
  function ItemsLog(lib: Library, key: string, value: Data, prop: Property, log: Log): Option<Log>
    decreases prop, 3
  {
    if prop.items.AnyItems? || !value.Arr? then Some(log)
    else FirstItemsLog(lib, key, value.items, |value.items|, prop.items.item, log)
  }

  function FirstItemsLog(lib: Library, key: string, items: seq<Data>, n: nat, item: Property, log: Log): Option<Log>
    requires n <= |items|
    decreases item, 4, n
  {
    if n == 0 then Some(log)
    else
      match FirstItemsLog(lib, key, items, n - 1, item, log)
      case None => None
      case Some(log1) => ItemLog(lib, key, n - 1, items[n - 1], item, log1)
  }

  function ItemLog(lib: Library, key: string, i: nat, value: Data, item: Property, log: Log): Option<Log>
    decreases item, 3
  {
    if item.kind == Some("string") && !value.Str? then Some(Add(log, key, ItemMustBe(i, "string")))
    else if item.kind == Some("number") && !value.Number? then Some(Add(log, key, ItemMustBe(i, "number")))
    else if item.kind == Some("object") && (value.Obj? || value.Null?) && item.fields.Declared? then
      ObjectLog(lib, ItemKey(key, i), value, item, log)
    else Some(log)
  }

  /** validateNestedObject; a null value does not reach it. */
  function NestedLog(lib: Library, key: string, value: Data, prop: Property, log: Log): Option<Log>
    decreases prop, 3
  {
    if prop.kind != Some("object") || !(value.Obj? || value.Null?) then Some(log)
    else ObjectLog(lib, key, value, prop, log)
  }

  /** validateObjectFields: reading a field of null throws. */
  function ObjectLog(lib: Library, key: string, value: Data, prop: Property, log: Log): Option<Log>
    decreases prop, 2
  {
    var n := if prop.fields.Declared? then |prop.fields.list| else 0;
    if value.Obj? then
      match FirstFieldsLog(lib, key, value.members, prop, n, log)
      case None => None
      case Some(log1) => Some(RequiredLog(key, value.members, prop.requiredProperties, |prop.requiredProperties|, log1))
    else if n == 0 && prop.requiredProperties == [] then Some(log)
    else None
  }

  function FirstFieldsLog(lib: Library, key: string, members: seq<Member>, prop: Property, n: nat,
                          log: Log): Option<Log>
    requires n <= if prop.fields.Declared? then |prop.fields.list| else 0
    decreases prop, 1, n
  {
    if n == 0 then Some(log)
    else
      match FirstFieldsLog(lib, key, members, prop, n - 1, log)
      case None => None
      case Some(log1) =>
        var Field(name, nested) := prop.fields.list[n - 1];
        var value := Lookup(members, name);
        if !Present(members, name) then
          Some(if nested.required then Add(log1, NestedKey(key, name), Required(name)) else log1)
        else PropertyLog(lib, NestedKey(key, name), value.value, nested, log1)
  }

  function RequiredLog(key: string, members: seq<Member>, names: seq<string>, n: nat, log: Log): Log
    requires n <= |names|
  {
    if n == 0 then log
    else
      var log1 := RequiredLog(key, members, names, n - 1, log);
      if Present(members, names[n - 1]) then log1
      else Add(log1, NestedKey(key, names[n - 1]), Required(names[n - 1]))
  }

  // --- the validator --------------------------------------------------------------------------

  /** The shared error array. */
  class ErrorLog {
    var errors: Log

    constructor ()
      ensures errors == []
    {
      errors := [];
    }

    method Push(field: string, message: Message)
      modifies this
      ensures errors == Add(old(errors), field, message)
    {
      errors := errors + [FieldError(field, message)];
    }
  }

  /** The checks with the library they use. Each adds to the list it is given; `ok` is false when a
      check throws, and then the list no longer matters. */
  method ValidatePattern(lib: Library, key: string, value: Data, prop: Property, log: ErrorLog)
    modifies log
    ensures log.errors == PatternLog(lib, key, value, prop, old(log.errors))
  {
    if prop.pattern.None? || prop.pattern.value == "" || !value.Str? {
      return;
    }
    var tested := lib.matches(prop.pattern.value, value.s);
    if tested.None? {
      log.Push(key, BadPattern);
    } else if !tested.value {
      log.Push(key, PatternMismatch);
    }
  }

  method ValidateLengthAndBounds(key: string, value: Data, prop: Property, log: ErrorLog)
    modifies log
    ensures log.errors == BoundsLog(key, value, prop, old(log.errors))
  {
    if prop.minLength.Some? && value.Str? && Length(value.s) < prop.minLength.value {
      log.Push(key, TooShort(prop.minLength.value));
    }
    if prop.maxLength.Some? && value.Str? && Length(value.s) > prop.maxLength.value {
      log.Push(key, TooLong(prop.maxLength.value));
    }
    if prop.minimum.Some? && value.Number? && value.n.Less(prop.minimum.value) {
      log.Push(key, AtLeast(prop.minimum.value));
    }
    if prop.maximum.Some? && value.Number? && prop.maximum.value.Less(value.n) {
      log.Push(key, AtMost(prop.maximum.value));
    }
    if prop.exclusiveMinimum.Some? && value.Number? && !prop.exclusiveMinimum.value.Less(value.n) {
      log.Push(key, GreaterThan(prop.exclusiveMinimum.value));
    }
    if prop.exclusiveMaximum.Some? && value.Number? && !value.n.Less(prop.exclusiveMaximum.value) {
      log.Push(key, LessThan(prop.exclusiveMaximum.value));
    }
    if prop.minItems.Some? && value.Arr? && |value.items| < prop.minItems.value {
      log.Push(key, TooFewItems(prop.minItems.value));
    }
    if prop.maxItems.Some? && value.Arr? && |value.items| > prop.maxItems.value {
      log.Push(key, TooManyItems(prop.maxItems.value));
    }
  }

  method ValidateEnum(key: string, value: Data, prop: Property, log: ErrorLog)
    modifies log
    ensures log.errors == EnumLog(key, value, prop, old(log.errors))
  {
    if prop.values.Some? && !Includes(prop.values.value, value) {
      log.Push(key, NotOneOf(prop.values.value));
    }
  }

  method ValidateFormat(lib: Library, key: string, value: Data, prop: Property, log: ErrorLog)
    modifies log
    ensures log.errors == FormatLog(lib, key, value, prop, old(log.errors))
  {
    if prop.format.None? || prop.format.value == "" || !value.Str? {
      return;
    }
    var (format, s) := (prop.format.value, value.s);
    if format == "date" {
      if lib.matches(DATE_PATTERN, s) != Some(true) || !lib.parsesAsDate(s) {
        log.Push(key, InvalidFormat("date"));
      }
    }
    if format == "date-time" {
      if !lib.parsesAsDate(s) {
        log.Push(key, InvalidFormat("date-time"));
      }
    }
    if format == "uuid" {
      if lib.matches(UUID_PATTERN, s) != Some(true) {
        log.Push(key, InvalidFormat("uuid"));
      }
    }
    if format == "email" {
      if lib.matches(EMAIL_PATTERN, s) != Some(true) {
        log.Push(key, InvalidFormat("email"));
      }
    }
    if format == "uri" {
      if !lib.parsesAsUrl(s) {
        log.Push(key, InvalidFormat("uri"));
      }
    }
  }

  method ValidateProperty(lib: Library, key: string, value: Data, prop: Property, log: ErrorLog) returns (ok: bool)
    modifies log
    ensures ok <==> PropertyLog(lib, key, value, prop, old(log.errors)).Some?
    ensures ok ==> Some(log.errors) == PropertyLog(lib, key, value, prop, old(log.errors))
    decreases prop, 5
  {
    hide PatternLog, BoundsLog, EnumLog, FormatLog, ItemsLog, NestedLog, HasKind;
    if !HasKind(value, prop.kind) {
      KindDeclared(value, prop.kind);
      log.Push(key, MustBe(prop.kind.value));
      return true;
    }
    ValidatePattern(lib, key, value, prop, log);
    ValidateLengthAndBounds(key, value, prop, log);
    ValidateEnum(key, value, prop, log);
    ok := ValidateItems(lib, key, value, prop, log);
    if !ok {
      return;
    }
    ok := ValidateNestedObject(lib, key, value, prop, log);
    if !ok {
      return;
    }
    ValidateFormat(lib, key, value, prop, log);
  }

  lemma KindDeclared(value: Data, kind: Option<string>)
    requires !HasKind(value, kind)
    ensures kind.Some?
  {
  }

  method ValidateItems(lib: Library, key: string, value: Data, prop: Property, log: ErrorLog) returns (ok: bool)
    modifies log
    ensures ok <==> ItemsLog(lib, key, value, prop, old(log.errors)).Some?
    ensures ok ==> Some(log.errors) == ItemsLog(lib, key, value, prop, old(log.errors))
    decreases prop, 3
  {
    if prop.items.AnyItems? || !value.Arr? {
      return true;
    }
    ghost var before := log.errors;
    for i := 0 to |value.items|
      invariant Some(log.errors) == FirstItemsLog(lib, key, value.items, i, prop.items.item, before)
    {
      hide ObjectLog, ItemKey;
      ghost var now := log.errors;
      var item := value.items[i];
      if prop.items.item.kind == Some("string") && !item.Str? {
        log.Push(key, ItemMustBe(i, "string"));
        continue;
      }
      if prop.items.item.kind == Some("number") && !item.Number? {
        log.Push(key, ItemMustBe(i, "number"));
        continue;
      }
      if prop.items.item.kind == Some("object") && (item.Obj? || item.Null?) && prop.items.item.fields.Declared? {
        ok := ValidateObjectFields(lib, ItemKey(key, i), item, prop.items.item, log);
        if !ok {
          ItemThrows(lib, key, value.items, i, prop.items.item, before);
          return;
        }
      }
    }
    ok := true;
  }

  /** Once an item throws, so does the whole loop. */
  lemma {:induction false} ItemThrows(lib: Library, key: string, items: seq<Data>, i: nat, item: Property, log: Log)
    requires i < |items|
    requires var log1 := FirstItemsLog(lib, key, items, i, item, log);
             log1.Some? && ItemLog(lib, key, i, items[i], item, log1.value).None?
    ensures FirstItemsLog(lib, key, items, |items|, item, log) == None
  {
    var n := i + 1;
    while n < |items|
      invariant i + 1 <= n <= |items|
      invariant FirstItemsLog(lib, key, items, n, item, log) == None
    {
      hide ItemLog;
      n := n + 1;
    }
  }

  method ValidateNestedObject(lib: Library, key: string, value: Data, prop: Property, log: ErrorLog) returns (ok: bool)
    modifies log
    ensures ok <==> NestedLog(lib, key, value, prop, old(log.errors)).Some?
    ensures ok ==> Some(log.errors) == NestedLog(lib, key, value, prop, old(log.errors))
    decreases prop, 3
  {
    if prop.kind != Some("object") || !(value.Obj? || value.Null?) {
      return true;
    }
    ok := ValidateObjectFields(lib, key, value, prop, log);
  }

  method ValidateObjectFields(lib: Library, key: string, value: Data, prop: Property, log: ErrorLog) returns (ok: bool)
    modifies log
    ensures ok <==> ObjectLog(lib, key, value, prop, old(log.errors)).Some?
    ensures ok ==> Some(log.errors) == ObjectLog(lib, key, value, prop, old(log.errors))
    decreases prop, 2
  {
    var fields := if prop.fields.Declared? then prop.fields.list else [];
    ghost var before := log.errors;
    for i := 0 to |fields|
      invariant i > 0 ==> value.Obj?
      invariant value.Obj? ==> Some(log.errors) == FirstFieldsLog(lib, key, value.members, prop, i, before)
      invariant i == 0 ==> log.errors == before
    {
      hide PropertyLog, RequiredLog, NestedKey, Lookup;
      if !value.Obj? {
        return false;
      }
      var Field(name, nested) := fields[i];
      var nestedValue := Lookup(value.members, name);
      var absent := nestedValue.None? || nestedValue.value.Null?;
      if nested.required && absent {
        log.Push(NestedKey(key, name), Required(name));
        continue;
      }
      if absent {
        continue;
      }
      ok := ValidateProperty(lib, NestedKey(key, name), nestedValue.value, nested, log);
      if !ok {
        FieldThrows(lib, key, value.members, prop, i, before);
        return;
      }
    }
    ghost var middle := log.errors;
    for i := 0 to |prop.requiredProperties|
      invariant i > 0 ==> value.Obj?
      invariant value.Obj? ==> log.errors == RequiredLog(key, value.members, prop.requiredProperties, i, middle)
      invariant i == 0 ==> log.errors == middle
    {
      hide PropertyLog, FirstFieldsLog, NestedKey;
      var name := prop.requiredProperties[i];
      if !value.Obj? {
        return false;
      }
      if !Present(value.members, name) {
        log.Push(NestedKey(key, name), Required(name));
      }
    }
    ok := true;
  }

  lemma {:induction false} FieldThrows(lib: Library, key: string, members: seq<Member>, prop: Property, i: nat,
                                       log: Log)
    requires prop.fields.Declared? && i < |prop.fields.list|
    requires FirstFieldsLog(lib, key, members, prop, i + 1, log).None?
    ensures FirstFieldsLog(lib, key, members, prop, |prop.fields.list|, log).None?
  {
    var n := i + 1;
    while n < |prop.fields.list|
      invariant i + 1 <= n <= |prop.fields.list|
      invariant FirstFieldsLog(lib, key, members, prop, n, log).None?
    {
      hide PropertyLog;
      n := n + 1;
    }
  }

  // --- the whole request ----------------------------------------------------------------------

  predicate IsDeclared(fields: Fields, key: string) {
    fields.Declared? && exists i | 0 <= i < |fields.list| :: fields.list[i].key == key
  }

  function UndeclaredLog(schema: Schema, members: seq<Member>, n: nat, log: Log): Log
    requires n <= |members|
  {
    if n == 0 then log
    else
      var log1 := UndeclaredLog(schema, members, n - 1, log);
      if IsDeclared(schema.fields, members[n - 1].key) then log1 else Add(log1, members[n - 1].key, NotAllowed)
  }

  function MissingLog(members: seq<Member>, names: seq<string>, n: nat, log: Log): Log
    requires n <= |names|
  {
    if n == 0 then log
    else
      var log1 := MissingLog(members, names, n - 1, log);
      if Present(members, names[n - 1]) then log1 else Add(log1, names[n - 1], Required(names[n - 1]))
  }

  function FirstPropertiesLog(lib: Library, members: seq<Member>, fields: seq<Field>, n: nat, log: Log): Option<Log>
    requires n <= |fields|
  {
    if n == 0 then Some(log)
    else
      match FirstPropertiesLog(lib, members, fields, n - 1, log)
      case None => None
      case Some(log1) =>
        var Field(key, prop) := fields[n - 1];
        if !Present(members, key) then Some(if prop.required then Add(log1, key, Required(key)) else log1)
        else PropertyLog(lib, key, Lookup(members, key).value, prop, log1)
  }

  /** validateRequest; a body that is missing has no members. */
  function RequestLog(lib: Library, data: Option<seq<Member>>, schema: Schema): Option<Log> {
    var members := if data.Some? then data.value else [];
    var log := if schema.additionalProperties then [] else UndeclaredLog(schema, members, |members|, []);
    if schema.fields.Undeclared? then Some(log)
    else
      FirstPropertiesLog(lib, members, schema.fields.list, |schema.fields.list|,
                         MissingLog(members, schema.required, |schema.required|, log))
  }

  datatype ValidationResult = ValidationResult(valid: bool, errors: Log)

  method ValidateRequest(lib: Library, data: Option<seq<Member>>, schema: Schema) returns (r: Option<ValidationResult>)
    ensures r.Some? <==> RequestLog(lib, data, schema).Some?
    ensures r.Some? ==> Some(r.value.errors) == RequestLog(lib, data, schema)
    ensures r.Some? ==> (r.value.valid <==> r.value.errors == [])
  {
    hide PropertyLog, Lookup, IsDeclared;
    var log := new ErrorLog();
    var members := if data.Some? then data.value else [];
    if !schema.additionalProperties {
      for i := 0 to |members|
        invariant log.errors == UndeclaredLog(schema, members, i, [])
      {
        if !IsDeclared(schema.fields, members[i].key) {
          log.Push(members[i].key, NotAllowed);
        }
      }
    }
    if schema.fields.Undeclared? {
      return Some(ValidationResult(log.errors == [], log.errors));
    }
    ghost var before := log.errors;
    for i := 0 to |schema.required|
      invariant log.errors == MissingLog(members, schema.required, i, before)
    {
      if !Present(members, schema.required[i]) {
        log.Push(schema.required[i], Required(schema.required[i]));
      }
    }
    ghost var middle := log.errors;
    for i := 0 to |schema.fields.list|
      invariant Some(log.errors) == FirstPropertiesLog(lib, members, schema.fields.list, i, middle)
    {
      var Field(key, prop) := schema.fields.list[i];
      var value := Lookup(members, key);
      if prop.required && !Present(members, key) {
        log.Push(key, Required(key));
        continue;
      }
      if !Present(members, key) {
        continue;
      }
      var ok := ValidateProperty(lib, key, value.value, prop, log);
      if !ok {
        PropertyThrows(lib, members, schema.fields.list, i, middle);
        return None;
      }
    }
    r := Some(ValidationResult(log.errors == [], log.errors));
  }

  lemma {:induction false} PropertyThrows(lib: Library, members: seq<Member>, fields: seq<Field>, i: nat, log: Log)
    requires i < |fields| && FirstPropertiesLog(lib, members, fields, i + 1, log).None?
    ensures FirstPropertiesLog(lib, members, fields, |fields|, log).None?
  {
    var n := i + 1;
    while n < |fields|
      invariant i + 1 <= n <= |fields|
      invariant FirstPropertiesLog(lib, members, fields, n, log).None?
    {
      hide PropertyLog;
      n := n + 1;
    }
  }

  // --- conformance, without a validator -----------------------------------------------------------

  predicate LengthHolds(value: Data, prop: Property) {
    value.Str? ==>
      && (prop.minLength.Some? ==> prop.minLength.value <= Length(value.s))
      && (prop.maxLength.Some? ==> Length(value.s) <= prop.maxLength.value)
  }

  predicate RangeHolds(value: Data, prop: Property) {
    value.Number? ==>
      && (prop.minimum.Some? ==> !value.n.Less(prop.minimum.value))
      && (prop.maximum.Some? ==> !prop.maximum.value.Less(value.n))
      && (prop.exclusiveMinimum.Some? ==> prop.exclusiveMinimum.value.Less(value.n))
      && (prop.exclusiveMaximum.Some? ==> value.n.Less(prop.exclusiveMaximum.value))
  }

  predicate SizeHolds(value: Data, prop: Property) {
    value.Arr? ==>
      && (prop.minItems.Some? ==> prop.minItems.value <= |value.items|)
      && (prop.maxItems.Some? ==> |value.items| <= prop.maxItems.value)
  }

  predicate PatternHolds(lib: Library, value: Data, prop: Property) {
    prop.pattern.Some? && prop.pattern.value != "" && value.Str? ==>
      lib.matches(prop.pattern.value, value.s) == Some(true)
  }

  /** The constraints on the value itself, apart from its format and its parts. */
  predicate SimpleHolds(lib: Library, value: Data, prop: Property) {
    && PatternHolds(lib, value, prop)
    && LengthHolds(value, prop) && RangeHolds(value, prop) && SizeHolds(value, prop)
    && (prop.values.Some? ==> Includes(prop.values.value, value))
  }

  predicate HasFormat(lib: Library, value: Data, prop: Property) {
    prop.format.Some? && value.Str? ==> FormatHolds(lib, prop.format.value, value.s)
  }

  ghost predicate Conforms(lib: Library, value: Data, prop: Property)
    decreases prop, 3
  {
    && HasKind(value, prop.kind)
    && SimpleHolds(lib, value, prop) && HasFormat(lib, value, prop)
    && (prop.items.Each? && value.Arr? ==>
          forall i | 0 <= i < |value.items| :: ItemConforms(lib, value.items[i], prop.items.item))
    && (prop.kind == Some("object") ==> ObjectConforms(lib, value, prop))
  }

  /** Array items: only strings, numbers and objects are looked at, and objects in depth only when
      the item schema declares properties. */
  ghost predicate ItemConforms(lib: Library, value: Data, item: Property)
    decreases item, 2
  {
    && (item.kind == Some("string") ==> value.Str?)
    && (item.kind == Some("number") ==> value.Number?)
    && (item.kind == Some("object") ==> value.Obj? && (item.fields.Declared? ==> ObjectConforms(lib, value, item)))
  }

  ghost predicate ObjectConforms(lib: Library, value: Data, prop: Property)
    decreases prop, 1
  {
    && value.Obj?
    && (prop.fields.Declared? ==>
          forall i | 0 <= i < |prop.fields.list| ::
            FieldConforms(lib, value.members, prop.fields.list[i].key, prop.fields.list[i].prop))
    && (forall i | 0 <= i < |prop.requiredProperties| :: Present(value.members, prop.requiredProperties[i]))
  }

  ghost predicate FieldConforms(lib: Library, members: seq<Member>, key: string, prop: Property)
    decreases prop, 4
  {
    if Present(members, key) then Conforms(lib, Lookup(members, key).value, prop) else !prop.required
  }

  predicate AllDeclared(fields: Fields, members: seq<Member>, n: nat)
    requires n <= |members|
  {
    forall i | 0 <= i < n :: IsDeclared(fields, members[i].key)
  }

  ghost predicate RequestConforms(lib: Library, data: Option<seq<Member>>, schema: Schema) {
    var members := if data.Some? then data.value else [];
    && (!schema.additionalProperties ==> AllDeclared(schema.fields, members, |members|))
    && (schema.fields.Declared? ==>
          && (forall i | 0 <= i < |schema.required| :: Present(members, schema.required[i]))
          && (forall i | 0 <= i < |schema.fields.list| ::
                FieldConforms(lib, members, schema.fields.list[i].key, schema.fields.list[i].prop)))
  }

  // --- data whose object-typed items are objects ---------------------------------------------------

  ghost predicate ObjectItems(value: Data, prop: Property)
    decreases prop, 3
  {
    && (prop.items.Each? && value.Arr? ==>
          forall i | 0 <= i < |value.items| :: ObjectItem(value.items[i], prop.items.item))
    && (prop.kind == Some("object") && value.Obj? ==> ObjectItemsInFields(value.members, prop))
  }

  ghost predicate ObjectItem(value: Data, item: Property)
    decreases item, 2
  {
    item.kind == Some("object") ==> value.Obj? && ObjectItemsInFields(value.members, item)
  }

  ghost predicate ObjectItemsInFields(members: seq<Member>, prop: Property)
    decreases prop, 1
  {
    prop.fields.Declared? ==> forall i | 0 <= i < |prop.fields.list| :: ObjectField(members, prop.fields.list[i])
  }

  ghost predicate ObjectField(members: seq<Member>, field: Field)
    decreases field
  {
    Present(members, field.key) ==> ObjectItems(Lookup(members, field.key).value, field.prop)
  }

  // --- no error exactly when the data conforms -----------------------------------------------------

  /** The outcome r of a check on the list `log`: it does not throw on object items, it only adds
      errors, and it adds none exactly when the data conforms, given object items. */
  ghost predicate Exact(r: Option<Log>, log: Log, conforms: bool, objectItems: bool) {
    && (objectItems ==> r.Some?)
    && (r.Some? ==> |r.value| >= |log| && (|r.value| == |log| ==> r.value == log))
    && (conforms <==> r == Some(log) && objectItems)
  }

  ghost predicate FirstConform(lib: Library, members: seq<Member>, fields: seq<Field>, n: nat)
    requires n <= |fields|
  {
    forall i | 0 <= i < n :: FieldConforms(lib, members, fields[i].key, fields[i].prop)
  }

  ghost predicate FirstObjectFields(members: seq<Member>, fields: seq<Field>, n: nat)
    requires n <= |fields|
  {
    forall i | 0 <= i < n :: ObjectField(members, fields[i])
  }

  lemma OneMoreField(lib: Library, members: seq<Member>, fields: seq<Field>, n: nat)
    requires 0 < n <= |fields|
    ensures FirstConform(lib, members, fields, n)
            <==> FirstConform(lib, members, fields, n - 1)
                 && FieldConforms(lib, members, fields[n - 1].key, fields[n - 1].prop)
    ensures FirstObjectFields(members, fields, n)
            <==> FirstObjectFields(members, fields, n - 1) && ObjectField(members, fields[n - 1])
  {
    hide FieldConforms, ObjectField;
  }

  lemma Compose(r1: Option<Log>, r2: Option<Log>, log: Log, c1: bool, o1: bool, c2: bool, o2: bool)
    requires Exact(r1, log, c1, o1)
    requires r1.Some? ==> Exact(r2, r1.value, c2, o2)
    requires r1.None? ==> r2.None?
    ensures Exact(r2, log, c1 && c2, o1 && o2)
  {
  }

  lemma SimpleExact(lib: Library, key: string, value: Data, prop: Property, log: Log)
    ensures Exact(Some(EnumLog(key, value, prop, BoundsLog(key, value, prop, PatternLog(lib, key, value, prop, log)))),
                  log, SimpleHolds(lib, value, prop), true)
  {
    var log1 := PatternLog(lib, key, value, prop, log);
    var log2 := LengthLog(key, value, prop, log1);
    var log3 := RangeLog(key, value, prop, log2);
    var log4 := SizeLog(key, value, prop, log3);
    var log5 := EnumLog(key, value, prop, log4);
    assert Exact(Some(log1), log, PatternHolds(lib, value, prop), true);
    assert Exact(Some(log2), log1, LengthHolds(value, prop), true);
    assert Exact(Some(log3), log2, RangeHolds(value, prop), true);
    assert Exact(Some(log4), log3, SizeHolds(value, prop), true);
    assert Exact(Some(log5), log4, prop.values.Some? ==> Includes(prop.values.value, value), true);
    hide PatternHolds, LengthHolds, RangeHolds, SizeHolds, Includes, PatternLog, LengthLog, RangeLog, SizeLog, EnumLog;
  }

  lemma FormatExact(lib: Library, key: string, value: Data, prop: Property, log: Log)
    ensures Exact(Some(FormatLog(lib, key, value, prop, log)), log, HasFormat(lib, value, prop), true)
  {
    hide FormatHolds;
  }

  /** The parts of Conforms and ObjectItems that each stage of the check answers for. */
  ghost predicate ItemsConform(lib: Library, value: Data, prop: Property) {
    prop.items.Each? && value.Arr? ==>
      forall i | 0 <= i < |value.items| :: ItemConforms(lib, value.items[i], prop.items.item)
  }

  ghost predicate ObjectItemsInArray(value: Data, prop: Property) {
    prop.items.Each? && value.Arr? ==>
      forall i | 0 <= i < |value.items| :: ObjectItem(value.items[i], prop.items.item)
  }

  ghost predicate NestedConforms(lib: Library, value: Data, prop: Property) {
    prop.kind == Some("object") ==> ObjectConforms(lib, value, prop)
  }

  ghost predicate ObjectItemsInNested(value: Data, prop: Property) {
    prop.kind == Some("object") && value.Obj? ==> ObjectItemsInFields(value.members, prop)
  }

  lemma ConformsParts(lib: Library, value: Data, prop: Property)
    ensures Conforms(lib, value, prop) <==>
            && HasKind(value, prop.kind) && SimpleHolds(lib, value, prop) && ItemsConform(lib, value, prop)
            && NestedConforms(lib, value, prop) && HasFormat(lib, value, prop)
    ensures ObjectItems(value, prop) <==> ObjectItemsInArray(value, prop) && ObjectItemsInNested(value, prop)
  {
    hide HasKind, SimpleHolds, HasFormat, ItemConforms, ObjectConforms, ObjectItem, ObjectItemsInFields;
  }

  function NestedStage(lib: Library, key: string, value: Data, prop: Property, r: Option<Log>): Option<Log> {
    if r.Some? then NestedLog(lib, key, value, prop, r.value) else None
  }

  function FormatStage(lib: Library, key: string, value: Data, prop: Property, r: Option<Log>): Option<Log> {
    if r.Some? then Some(FormatLog(lib, key, value, prop, r.value)) else None
  }

  lemma PropertyStages(lib: Library, key: string, value: Data, prop: Property, log: Log)
    requires HasKind(value, prop.kind)
    ensures var log1 := EnumLog(key, value, prop, BoundsLog(key, value, prop, PatternLog(lib, key, value, prop, log)));
            PropertyLog(lib, key, value, prop, log)
            == FormatStage(lib, key, value, prop,
                           NestedStage(lib, key, value, prop, ItemsLog(lib, key, value, prop, log1)))
  {
    hide HasKind, EnumLog, BoundsLog, PatternLog, ItemsLog, NestedLog, FormatLog;
  }

  lemma WrongKind(lib: Library, key: string, value: Data, prop: Property, log: Log)
    requires !HasKind(value, prop.kind)
    ensures Exact(PropertyLog(lib, key, value, prop, log), log, false, ObjectItems(value, prop))
  {
    hide HasKind, ObjectItems;
    KindDeclared(value, prop.kind);
  }

  /** Both directions for one property, for every value that reaches the check. */
  lemma {:induction false} PropertyExact(lib: Library, key: string, value: Data, prop: Property, log: Log)
    requires !value.Null?
    ensures Exact(PropertyLog(lib, key, value, prop, log), log, Conforms(lib, value, prop), ObjectItems(value, prop))
    decreases prop, 5
  {
    hide *;
    ConformsParts(lib, value, prop);
    if !HasKind(value, prop.kind) {
      WrongKind(lib, key, value, prop, log);
      return;
    }
    PropertyStages(lib, key, value, prop, log);
    SimpleExact(lib, key, value, prop, log);
    var log1 := EnumLog(key, value, prop, BoundsLog(key, value, prop, PatternLog(lib, key, value, prop, log)));
    var r2 := ItemsLog(lib, key, value, prop, log1);
    var r3 := NestedStage(lib, key, value, prop, r2);
    var r4 := FormatStage(lib, key, value, prop, r3);
    var (simple, items, nested) :=
      (SimpleHolds(lib, value, prop), ItemsConform(lib, value, prop), NestedConforms(lib, value, prop));
    var (inArray, inNested) := (ObjectItemsInArray(value, prop), ObjectItemsInNested(value, prop));
    ItemsExact(lib, key, value, prop, log1);
    Compose(Some(log1), r2, log, simple, true, items, inArray);
    NestedStageExact(lib, key, value, prop, r2);
    Compose(r2, r3, log, simple && items, inArray, nested, inNested);
    FormatStageExact(lib, key, value, prop, r3);
    Compose(r3, r4, log, simple && items && nested, inArray && inNested, HasFormat(lib, value, prop), true);
  }

  lemma FormatStageExact(lib: Library, key: string, value: Data, prop: Property, r: Option<Log>)
    ensures var r' := FormatStage(lib, key, value, prop, r);
            && (r.Some? ==> Exact(r', r.value, HasFormat(lib, value, prop), true))
            && (r.None? ==> r'.None?)
  {
    if r.Some? {
      FormatExact(lib, key, value, prop, r.value);
    }
    hide Exact, HasFormat, FormatLog;
  }

  lemma {:induction false} NestedStageExact(lib: Library, key: string, value: Data, prop: Property, r: Option<Log>)
    requires !value.Null? && HasKind(value, prop.kind)
    ensures var r' := NestedStage(lib, key, value, prop, r);
            && (r.Some? ==> Exact(r', r.value, NestedConforms(lib, value, prop), ObjectItemsInNested(value, prop)))
            && (r.None? ==> r'.None?)
    decreases prop, 4
  {
    if r.Some? && prop.kind == Some("object") && value.Obj? {
      ObjectExact(lib, key, value.members, prop, r.value);
    }
    hide ObjectConforms, ObjectItemsInFields, ObjectLog;
  }

  lemma {:induction false} ItemsExact(lib: Library, key: string, value: Data, prop: Property, log: Log)
    ensures Exact(ItemsLog(lib, key, value, prop, log), log, ItemsConform(lib, value, prop),
                  ObjectItemsInArray(value, prop))
    decreases prop, 3
  {
    if prop.items.Each? && value.Arr? {
      FirstItemsExact(lib, key, value.items, |value.items|, prop.items.item, log);
    }
    hide FirstItemsLog, ItemConforms, ObjectItem;
  }

  lemma {:induction false} FirstItemsExact(lib: Library, key: string, items: seq<Data>, n: nat, item: Property,
                                           log: Log)
    requires n <= |items|
    ensures Exact(FirstItemsLog(lib, key, items, n, item, log), log,
                  forall i | 0 <= i < n :: ItemConforms(lib, items[i], item),
                  forall i | 0 <= i < n :: ObjectItem(items[i], item))
    decreases item, 4, n
  {
    if n > 0 {
      FirstItemsExact(lib, key, items, n - 1, item, log);
      var r := FirstItemsLog(lib, key, items, n - 1, item, log);
      if r.Some? {
        ItemExact(lib, key, n - 1, items[n - 1], item, r.value);
      }
      hide ItemLog, ItemConforms, ObjectItem, Exact;
      Compose(r, FirstItemsLog(lib, key, items, n, item, log), log,
              forall i | 0 <= i < n - 1 :: ItemConforms(lib, items[i], item),
              forall i | 0 <= i < n - 1 :: ObjectItem(items[i], item),
              ItemConforms(lib, items[n - 1], item), ObjectItem(items[n - 1], item));
    }
  }

  lemma {:induction false} ItemExact(lib: Library, key: string, i: nat, value: Data, item: Property, log: Log)
    ensures Exact(ItemLog(lib, key, i, value, item, log), log, ItemConforms(lib, value, item), ObjectItem(value, item))
    decreases item, 3
  {
    if item.kind == Some("object") && value.Obj? && item.fields.Declared? {
      ObjectExact(lib, ItemKey(key, i), value.members, item, log);
    }
    hide ObjectConforms, ObjectLog, ItemKey;
    if value.Obj? && item.fields.Undeclared? {
      assert ObjectItemsInFields(value.members, item);
    }
    hide ObjectItemsInFields;
  }

  lemma {:induction false} ObjectExact(lib: Library, key: string, members: seq<Member>, prop: Property, log: Log)
    ensures Exact(ObjectLog(lib, key, Obj(members), prop, log), log,
                  ObjectConforms(lib, Obj(members), prop), ObjectItemsInFields(members, prop))
    decreases prop, 2
  {
    var n := if prop.fields.Declared? then |prop.fields.list| else 0;
    var r := FirstFieldsLog(lib, key, members, prop, n, log);
    FirstFieldsExact(lib, key, members, prop, n, log);
    if r.Some? {
      RequiredExact(key, members, prop.requiredProperties, |prop.requiredProperties|, r.value);
    }
    hide FirstFieldsLog, RequiredLog, FieldConforms, ObjectItems, Present, Exact;
    Compose(r, ObjectLog(lib, key, Obj(members), prop, log), log,
            n == 0 || FirstConform(lib, members, prop.fields.list, n),
            n == 0 || FirstObjectFields(members, prop.fields.list, n),
            forall i | 0 <= i < |prop.requiredProperties| :: Present(members, prop.requiredProperties[i]), true);
  }

  lemma {:induction false} FirstFieldsExact(lib: Library, key: string, members: seq<Member>, prop: Property, n: nat,
                                            log: Log)
    requires n <= if prop.fields.Declared? then |prop.fields.list| else 0
    ensures Exact(FirstFieldsLog(lib, key, members, prop, n, log), log,
                  n == 0 || FirstConform(lib, members, prop.fields.list, n),
                  n == 0 || FirstObjectFields(members, prop.fields.list, n))
    decreases prop, 1, n
  {
    if n > 0 {
      FirstFieldsExact(lib, key, members, prop, n - 1, log);
      var (r, field) := (FirstFieldsLog(lib, key, members, prop, n - 1, log), prop.fields.list[n - 1]);
      if r.Some? {
        if Present(members, field.key) {
          PropertyExact(lib, NestedKey(key, field.key), Lookup(members, field.key).value, field.prop, r.value);
        }
        FieldExact(lib, key, members, prop, n, log);
      }
      FieldThrowsOn(lib, key, members, prop, n, log);
      OneMoreField(lib, members, prop.fields.list, n);
      assert FirstConform(lib, members, prop.fields.list, 0) && FirstObjectFields(members, prop.fields.list, 0);
      hide *;
      Compose(r, FirstFieldsLog(lib, key, members, prop, n, log), log,
              n == 1 || FirstConform(lib, members, prop.fields.list, n - 1),
              n == 1 || FirstObjectFields(members, prop.fields.list, n - 1),
              FieldConforms(lib, members, field.key, field.prop), ObjectField(members, field));
    }
  }

  lemma FieldThrowsOn(lib: Library, key: string, members: seq<Member>, prop: Property, n: nat, log: Log)
    requires 0 < n <= if prop.fields.Declared? then |prop.fields.list| else 0
    ensures FirstFieldsLog(lib, key, members, prop, n - 1, log).None? ==>
            FirstFieldsLog(lib, key, members, prop, n, log).None?
  {
  }

  lemma FieldExact(lib: Library, key: string, members: seq<Member>, prop: Property, n: nat, log: Log)
    requires 0 < n <= if prop.fields.Declared? then |prop.fields.list| else 0
    requires FirstFieldsLog(lib, key, members, prop, n - 1, log).Some?
    requires var (r, field) := (FirstFieldsLog(lib, key, members, prop, n - 1, log), prop.fields.list[n - 1]);
             Present(members, field.key) ==>
               var value := Lookup(members, field.key).value;
               Exact(PropertyLog(lib, NestedKey(key, field.key), value, field.prop, r.value), r.value,
                     Conforms(lib, value, field.prop), ObjectItems(value, field.prop))
    ensures var (r, field) := (FirstFieldsLog(lib, key, members, prop, n - 1, log), prop.fields.list[n - 1]);
            Exact(FirstFieldsLog(lib, key, members, prop, n, log), r.value,
                  FieldConforms(lib, members, field.key, field.prop), ObjectField(members, field))
  {
    hide PropertyLog, Conforms, ObjectItems, NestedKey;
  }

  lemma {:induction false} RequiredExact(key: string, members: seq<Member>, names: seq<string>, n: nat, log: Log)
    requires n <= |names|
    ensures Exact(Some(RequiredLog(key, members, names, n, log)), log,
                  forall i | 0 <= i < n :: Present(members, names[i]), true)
  {
    if n > 0 {
      RequiredExact(key, members, names, n - 1, log);
      hide Present;
    }
  }

  lemma {:induction false} UndeclaredExact(schema: Schema, members: seq<Member>, n: nat, log: Log)
    requires n <= |members|
    ensures Exact(Some(UndeclaredLog(schema, members, n, log)), log,
                  AllDeclared(schema.fields, members, n), true)
  {
    if n > 0 {
      UndeclaredExact(schema, members, n - 1, log);
      hide IsDeclared;
    }
  }

  lemma {:induction false} MissingExact(members: seq<Member>, names: seq<string>, n: nat, log: Log)
    requires n <= |names|
    ensures Exact(Some(MissingLog(members, names, n, log)), log,
                  forall i | 0 <= i < n :: Present(members, names[i]), true)
  {
    if n > 0 {
      MissingExact(members, names, n - 1, log);
      hide Present;
    }
  }

  lemma {:induction false} FirstPropertiesExact(lib: Library, members: seq<Member>, fields: seq<Field>, n: nat,
                                                log: Log)
    requires n <= |fields|
    ensures Exact(FirstPropertiesLog(lib, members, fields, n, log), log,
                  FirstConform(lib, members, fields, n), FirstObjectFields(members, fields, n))
  {
    if n > 0 {
      FirstPropertiesExact(lib, members, fields, n - 1, log);
      var (r, field) := (FirstPropertiesLog(lib, members, fields, n - 1, log), fields[n - 1]);
      var r' := FirstPropertiesLog(lib, members, fields, n, log);
      if r.Some? {
        if Present(members, field.key) {
          PropertyExact(lib, field.key, Lookup(members, field.key).value, field.prop, r.value);
        }
        hide PropertyLog, Conforms, ObjectItems;
        assert Exact(r', r.value, FieldConforms(lib, members, field.key, field.prop), ObjectField(members, field));
      }
      OneMoreField(lib, members, fields, n);
      hide *;
      Compose(r, r', log,
              FirstConform(lib, members, fields, n - 1), FirstObjectFields(members, fields, n - 1),
              FieldConforms(lib, members, field.key, field.prop), ObjectField(members, field));
    }
  }

  ghost predicate RequestObjectItems(data: Option<seq<Member>>, schema: Schema) {
    var members := if data.Some? then data.value else [];
    schema.fields.Declared? ==> forall i | 0 <= i < |schema.fields.list| :: ObjectField(members, schema.fields.list[i])
  }

  /** A request conforms exactly when the validator reports no error on it and its object-typed
      array items are objects; with such items it never throws. */
  lemma AcceptsExactlyConforming(lib: Library, data: Option<seq<Member>>, schema: Schema)
    ensures RequestConforms(lib, data, schema)
            <==> RequestLog(lib, data, schema) == Some([]) && RequestObjectItems(data, schema)
    ensures RequestObjectItems(data, schema) ==> RequestLog(lib, data, schema).Some?
  {
    var members := if data.Some? then data.value else [];
    var log := if schema.additionalProperties then [] else UndeclaredLog(schema, members, |members|, []);
    UndeclaredExact(schema, members, |members|, []);
    if schema.fields.Declared? {
      var (names, fields) := (schema.required, schema.fields.list);
      MissingExact(members, names, |names|, log);
      FirstPropertiesExact(lib, members, fields, |fields|, MissingLog(members, names, |names|, log));
      hide UndeclaredLog, MissingLog, FirstPropertiesLog, IsDeclared, Present, FieldConforms, ObjectField;
    } else {
      assert RequestLog(lib, data, schema) == Some(log);
    }
  }

  // --- what is checked of array items -----------------------------------------------------------

  /** Constraints that exclude nothing: of a pattern and a format all strings, of the bounds on lengths,
      numbers and sizes those that everything meets. */
  ghost predicate AnyText(lib: Library, item: Property) {
    && item.minLength.GetOr(0) <= 0 && item.maxLength.None?
    && (item.pattern.None? || item.pattern.value == "" || forall s :: lib.matches(item.pattern.value, s) == Some(true))
    && (item.format.None? || forall s :: FormatHolds(lib, item.format.value, s))
  }

  predicate AnyNumber(item: Property) {
    && item.minimum.GetOr(NegInf) == NegInf && item.maximum.GetOr(PosInf) == PosInf
    && item.exclusiveMinimum.None? && item.exclusiveMaximum.None?
  }

  predicate AnyArray(item: Property) {
    && item.minItems.GetOr(0) <= 0 && item.maxItems.None?
    && (item.items.AnyItems?
        || item.items.item.kind !in {Some("string"), Some("number"), Some("object")})
  }

  /** The item schemas that the validator enforces in full: none with an enum, unless no object meets
      it anyway; strings, numbers and items of no particular kind whose constraints exclude nothing; and
      objects with declared properties or nothing required. Integer, boolean and array items it never
      checks. */
  ghost predicate EnforcedItem(lib: Library, item: Property) {
    if item.kind == Some("string") then item.values.None? && AnyText(lib, item)
    else if item.kind == Some("number") then item.values.None? && AnyNumber(item)
    else if item.kind == Some("object") then
      if item.fields.Declared? then item.values.None? || forall m :: !ObjectConforms(lib, Obj(m), item)
      else item.values.None? && item.requiredProperties == []
    else if item.kind in {Some("integer"), Some("boolean"), Some("array")} then false
    else item.values.None? && AnyText(lib, item) && AnyNumber(item) && AnyArray(item)
  }

  /** A string longer than `n`, and longer than all strings of a list. */
  function Long(n: nat): (s: string)
    ensures Length(s) == |s| == n + 1
  {
    if n == 0 then
      assert Length("") == 0;
      "a"
    else
      var s := Long(n - 1) + "a";
      assert s[..|s| - 1] == Long(n - 1);
      s
  }

  function Longest(values: seq<Data>): nat {
    if values == [] then 0
    else
      var (n, v) := (Longest(values[1..]), values[0]);
      if v.Str? && |v.s| > n then |v.s| else n
  }

  lemma {:induction false} LongNotListed(values: seq<Data>, n: nat)
    requires n >= Longest(values)
    ensures Str(Long(n)) !in values
  {
    if values != [] {
      LongNotListed(values[1..], n);
      assert values == [values[0]] + values[1..];
    }
  }

  function Greatest(values: seq<Data>): real {
    if values == [] then 0.0
    else
      var (x, v) := (Greatest(values[1..]), values[0]);
      if v.Number? && v.n.Finite? && v.n.r > x then v.n.r else x
  }

  lemma {:induction false} GreaterNotListed(values: seq<Data>, x: real)
    requires x > Greatest(values)
    ensures Number(Finite(x)) !in values
  {
    if values != [] {
      GreaterNotListed(values[1..], x);
      assert values == [values[0]] + values[1..];
    }
  }

  lemma ExcludedString(lib: Library, item: Property) returns (s: string)
    requires !(item.values.None? && AnyText(lib, item))
    ensures !(SimpleHolds(lib, Str(s), item) && HasFormat(lib, Str(s), item))
  {
    hide FormatHolds, Long, Longest;
    if item.values.Some? {
      s := Long(Longest(item.values.value));
      LongNotListed(item.values.value, Longest(item.values.value));
    } else if item.maxLength.Some? && item.maxLength.value >= 0 {
      s := Long(item.maxLength.value);
    } else if item.maxLength.Some? || item.minLength.GetOr(0) > 0 {
      s := "";
    } else if item.pattern.Some? && item.pattern.value != ""
              && exists t :: lib.matches(item.pattern.value, t) != Some(true) {
      s :| lib.matches(item.pattern.value, s) != Some(true);
    } else {
      s :| !FormatHolds(lib, item.format.value, s);
    }
  }

  lemma EveryString(lib: Library, item: Property, s: string)
    requires item.values.None? && AnyText(lib, item)
    ensures SimpleHolds(lib, Str(s), item) && HasFormat(lib, Str(s), item)
  {
    hide FormatHolds;
  }

  lemma ExcludedNumber(lib: Library, item: Property) returns (n: Num)
    requires !(item.values.None? && AnyNumber(item))
    ensures !SimpleHolds(lib, Number(n), item)
  {
    if item.values.Some? {
      n := Finite(Greatest(item.values.value) + 1.0);
      GreaterNotListed(item.values.value, Greatest(item.values.value) + 1.0);
    } else if item.exclusiveMinimum.Some? {
      n := item.exclusiveMinimum.value;
    } else if item.exclusiveMaximum.Some? {
      n := item.exclusiveMaximum.value;
    } else if item.minimum.GetOr(NegInf) != NegInf {
      n := NegInf;
    } else {
      n := PosInf;
    }
    hide Greatest;
  }

  lemma EveryNumber(lib: Library, item: Property, n: Num)
    requires item.values.None? && AnyNumber(item)
    ensures SimpleHolds(lib, Number(n), item)
  {
  }

  lemma ExcludedArray(lib: Library, item: Property) returns (items: seq<Data>)
    requires !AnyArray(item)
    ensures !SimpleHolds(lib, Arr(items), item) || !ItemsConform(lib, Arr(items), item)
  {
    if item.minItems.GetOr(0) > 0 {
      items := [];
    } else if item.maxItems.Some? {
      items := seq(if item.maxItems.value < 0 then 0 else item.maxItems.value + 1, _ => Null);
    } else {
      items := [Null];
      assert !ItemConforms(lib, Arr(items).items[0], item.items.item);
    }
    hide ObjectConforms;
  }

  /** For items of no known kind, the same over all data. */
  lemma ExcludedItem(lib: Library, item: Property) returns (value: Data)
    requires !(item.values.None? && AnyText(lib, item) && AnyNumber(item) && AnyArray(item))
    ensures !(SimpleHolds(lib, value, item) && HasFormat(lib, value, item) && ItemsConform(lib, value, item))
  {
    hide SimpleHolds, HasFormat, ItemsConform, AnyText, AnyNumber, AnyArray;
    if !(item.values.None? && AnyText(lib, item)) {
      var s := ExcludedString(lib, item);
      value := Str(s);
    } else if !AnyNumber(item) {
      var n := ExcludedNumber(lib, item);
      value := Number(n);
    } else {
      var items := ExcludedArray(lib, item);
      value := Arr(items);
    }
  }

  lemma EveryItem(lib: Library, item: Property, value: Data)
    requires item.values.None? && AnyText(lib, item) && AnyNumber(item) && AnyArray(item)
    ensures SimpleHolds(lib, value, item) && HasFormat(lib, value, item) && ItemsConform(lib, value, item)
  {
    hide FormatHolds, ObjectConforms;
  }

  /** An item that conforms in full always passes. */
  lemma FullItemPasses(lib: Library, value: Data, item: Property)
    requires Conforms(lib, value, item)
    ensures ItemConforms(lib, value, item)
  {
    hide SimpleHolds, HasFormat;
  }

  lemma EnforcedItemSound(lib: Library, value: Data, item: Property)
    requires EnforcedItem(lib, item) && ItemConforms(lib, value, item)
    ensures Conforms(lib, value, item)
  {
    ConformsParts(lib, value, item);
    if item.kind == Some("object") {
      ObjectIsSimple(lib, value.members, item);
    }
    assert value.Number? ==> HasFormat(lib, value, item);
    hide Conforms, SimpleHolds, HasFormat, ObjectConforms, AnyText, AnyNumber, AnyArray;
    if item.kind == Some("string") {
      EveryString(lib, item, value.s);
    } else if item.kind == Some("number") {
      EveryNumber(lib, item, value.n);
    } else if item.kind == Some("object") {
      assert Obj(value.members) == value;
    } else {
      EveryItem(lib, item, value);
    }
  }

  lemma ObjectIsSimple(lib: Library, members: seq<Member>, item: Property)
    ensures SimpleHolds(lib, Obj(members), item) <==> item.values == None
    ensures HasFormat(lib, Obj(members), item)
  {
  }

  /** A schema that is not enforced lets through an item that does not conform. */
  lemma UnenforcedItem(lib: Library, item: Property) returns (value: Data)
    requires !EnforcedItem(lib, item)
    ensures ItemConforms(lib, value, item) && !Conforms(lib, value, item)
  {
    if item.kind == Some("string") {
      var s := ExcludedString(lib, item);
      value := Str(s);
    } else if item.kind == Some("number") {
      var n := ExcludedNumber(lib, item);
      value := Number(n);
    } else if item.kind == Some("object") {
      if item.fields.Declared? {
        var m :| ObjectConforms(lib, Obj(m), item);
        value := Obj(m);
        ObjectIsSimple(lib, m, item);
      } else {
        value := Obj([]);
        ObjectIsSimple(lib, [], item);
        assert item.requiredProperties != [] ==> !Present([], item.requiredProperties[0]);
      }
    } else if item.kind in {Some("integer"), Some("boolean"), Some("array")} {
      value := Null;
    } else {
      value := ExcludedItem(lib, item);
    }
    ConformsParts(lib, value, item);
    hide Conforms, SimpleHolds, HasFormat, AnyText, AnyNumber, AnyArray;
  }

  /** The items that pass are the items that conform in full exactly for the enforced schemas. */
  lemma ItemsEnforcedExactly(lib: Library, item: Property)
    ensures (forall value :: ItemConforms(lib, value, item) <==> Conforms(lib, value, item))
            <==> EnforcedItem(lib, item)
  {
    hide ItemConforms, Conforms, EnforcedItem;
    if EnforcedItem(lib, item) {
      forall value ensures ItemConforms(lib, value, item) <==> Conforms(lib, value, item) {
        if ItemConforms(lib, value, item) {
          EnforcedItemSound(lib, value, item);
        }
        if Conforms(lib, value, item) {
          FullItemPasses(lib, value, item);
        }
      }
    } else {
      var value := UnenforcedItem(lib, item);
    }
  }

  // --- when the validator throws ------------------------------------------------------------------

  /** Checking the value throws: somewhere in it an array item that should be an object is null while
      its schema has a field to read. */
  ghost predicate Breaks(value: Data, prop: Property)
    decreases prop, 3
  {
    && HasKind(value, prop.kind)
    && (|| (prop.items.Each? && value.Arr? &&
            exists i | 0 <= i < |value.items| :: ItemBreaks(value.items[i], prop.items.item))
        || (prop.kind == Some("object") && (value.Obj? || value.Null?) && ObjectBreaks(value, prop)))
  }

  /** Only items of a schema with declared properties are looked into. */
  ghost predicate ItemBreaks(value: Data, item: Property)
    decreases item, 2
  {
    item.kind == Some("object") && item.fields.Declared? && (value.Obj? || value.Null?) && ObjectBreaks(value, item)
  }

  ghost predicate ObjectBreaks(value: Data, prop: Property)
    decreases prop, 1
  {
    if value.Obj? then
      prop.fields.Declared? && exists i | 0 <= i < |prop.fields.list| :: FieldBreaks(value.members, prop.fields.list[i])
    else (prop.fields.Declared? && prop.fields.list != []) || prop.requiredProperties != []
  }

  ghost predicate FieldBreaks(members: seq<Member>, field: Field)
    decreases field
  {
    Present(members, field.key) && Breaks(Lookup(members, field.key).value, field.prop)
  }

  lemma {:induction false} PropertyThrowsExactly(lib: Library, key: string, value: Data, prop: Property, log: Log)
    ensures PropertyLog(lib, key, value, prop, log).None? <==> Breaks(value, prop)
    decreases prop, 5
  {
    if HasKind(value, prop.kind) {
      var log1 := EnumLog(key, value, prop, BoundsLog(key, value, prop, PatternLog(lib, key, value, prop, log)));
      var r2 := ItemsLog(lib, key, value, prop, log1);
      PropertyStages(lib, key, value, prop, log);
      hide PropertyLog, HasKind, EnumLog, BoundsLog, PatternLog, FormatLog, ItemBreaks, ObjectBreaks, FirstItemsLog,
          ObjectLog;
      if prop.items.Each? && value.Arr? {
        FirstItemsThrow(lib, key, value.items, |value.items|, prop.items.item, log1);
      }
      if r2.Some? && prop.kind == Some("object") && (value.Obj? || value.Null?) {
        ObjectThrowsExactly(lib, key, value, prop, r2.value);
      }
    }
  }

  lemma {:induction false} FirstItemsThrow(lib: Library, key: string, items: seq<Data>, n: nat, item: Property,
                                           log: Log)
    requires n <= |items|
    ensures FirstItemsLog(lib, key, items, n, item, log).None? <==> exists i | 0 <= i < n :: ItemBreaks(items[i], item)
    decreases item, 4, n
  {
    if n > 0 {
      FirstItemsThrow(lib, key, items, n - 1, item, log);
      var r := FirstItemsLog(lib, key, items, n - 1, item, log);
      if r.Some? {
        ItemThrowsExactly(lib, key, n - 1, items[n - 1], item, r.value);
      }
      hide ItemLog, ItemBreaks;
    }
  }

  lemma {:induction false} ItemThrowsExactly(lib: Library, key: string, i: nat, value: Data, item: Property, log: Log)
    ensures ItemLog(lib, key, i, value, item, log).None? <==> ItemBreaks(value, item)
    decreases item, 3
  {
    if item.kind == Some("object") && (value.Obj? || value.Null?) && item.fields.Declared? {
      ObjectThrowsExactly(lib, ItemKey(key, i), value, item, log);
    }
    hide ObjectLog, ObjectBreaks, ItemKey;
  }

  lemma {:induction false} ObjectThrowsExactly(lib: Library, key: string, value: Data, prop: Property, log: Log)
    requires value.Obj? || value.Null?
    ensures ObjectLog(lib, key, value, prop, log).None? <==> ObjectBreaks(value, prop)
    decreases prop, 2
  {
    if value.Obj? {
      var n := if prop.fields.Declared? then |prop.fields.list| else 0;
      FirstFieldsThrow(lib, key, value.members, prop, n, log);
      hide FirstFieldsLog, RequiredLog, FieldBreaks;
    }
  }

  lemma {:induction false} FirstFieldsThrow(lib: Library, key: string, members: seq<Member>, prop: Property, n: nat,
                                            log: Log)
    requires n <= if prop.fields.Declared? then |prop.fields.list| else 0
    ensures FirstFieldsLog(lib, key, members, prop, n, log).None?
            <==> exists i | 0 <= i < n :: FieldBreaks(members, prop.fields.list[i])
    decreases prop, 1, n
  {
    if n > 0 {
      FirstFieldsThrow(lib, key, members, prop, n - 1, log);
      var (r, field) := (FirstFieldsLog(lib, key, members, prop, n - 1, log), prop.fields.list[n - 1]);
      if r.Some? && Present(members, field.key) {
        PropertyThrowsExactly(lib, NestedKey(key, field.key), Lookup(members, field.key).value, field.prop, r.value);
      }
      hide PropertyLog, Breaks, Lookup, NestedKey;
    }
  }

  lemma {:induction false} FirstPropertiesThrow(lib: Library, members: seq<Member>, fields: seq<Field>, n: nat,
                                                log: Log)
    requires n <= |fields|
    ensures FirstPropertiesLog(lib, members, fields, n, log).None?
            <==> exists i | 0 <= i < n :: FieldBreaks(members, fields[i])
  {
    if n > 0 {
      FirstPropertiesThrow(lib, members, fields, n - 1, log);
      var (r, field) := (FirstPropertiesLog(lib, members, fields, n - 1, log), fields[n - 1]);
      if r.Some? && Present(members, field.key) {
        PropertyThrowsExactly(lib, field.key, Lookup(members, field.key).value, field.prop, r.value);
      }
      hide PropertyLog, Breaks, Lookup;
    }
  }

  /** The validator throws on a request exactly when one of its declared members breaks. */
  lemma ThrowsExactly(lib: Library, data: Option<seq<Member>>, schema: Schema)
    ensures var members := if data.Some? then data.value else [];
            RequestLog(lib, data, schema).None?
            <==> schema.fields.Declared?
                 && exists i | 0 <= i < |schema.fields.list| :: FieldBreaks(members, schema.fields.list[i])
  {
    var members := if data.Some? then data.value else [];
    var log := if schema.additionalProperties then [] else UndeclaredLog(schema, members, |members|, []);
    if schema.fields.Declared? {
      FirstPropertiesThrow(lib, members, schema.fields.list, |schema.fields.list|,
                           MissingLog(members, schema.required, |schema.required|, log));
      hide FirstPropertiesLog, FieldBreaks, MissingLog, UndeclaredLog;
    }
  }

  // --- what each keyword means ------------------------------------------------------------------

  const AnyProperty := Property(None, None, None, false, None, None, None, None, None, None, None, None, None,
                                AnyItems, Undeclared, [])

  /** A request of one member against a schema that requires it and declares one property. */
  function OneMember(key: string, value: Data): Option<seq<Member>> {
    Some([Member(key, value)])
  }

  function OneField(key: string, prop: Property): Schema {
    Schema(Declared([Field(key, prop)]), [key], true)
  }

  /** The request is accepted, or refused with this one error. */
  predicate AcceptedIf(r: Option<Log>, ok: bool, key: string, message: Message) {
    r == Some(if ok then [] else [FieldError(key, message)])
  }

  lemma FirstError(key: string)
    ensures forall message :: Add([], key, message) == [FieldError(key, message)]
  {
  }

  lemma FieldChecked(lib: Library, key: string, value: Data, prop: Property)
    ensures !value.Null? ==> RequestLog(lib, OneMember(key, value), OneField(key, prop))
                             == PropertyLog(lib, key, value, prop, [])
    ensures !prop.required ==>
              RequestLog(lib, OneMember(key, Null), OneField(key, prop)) == Some([FieldError(key, Required(key))])
    ensures !prop.required ==>
              RequestLog(lib, None, OneField(key, prop)) == Some([FieldError(key, Required(key))])
  {
    FirstError(key);
    assert Lookup([], key) == None && Lookup([Member(key, Null)], key) == Some(Null);
    assert Lookup([Member(key, value)], key) == Some(value);
    hide PropertyLog, Lookup;
    FirstOnly(lib, [Member(key, value)], key, prop);
    FirstOnly(lib, [Member(key, Null)], key, prop);
    FirstOnly(lib, [], key, prop);
    hide MissingLog, FirstPropertiesLog;
  }

  lemma FirstOnly(lib: Library, members: seq<Member>, key: string, prop: Property)
    ensures MissingLog(members, [key], 1, []) == if Present(members, key) then [] else Add([], key, Required(key))
    ensures Present(members, key) ==> forall log ::
              FirstPropertiesLog(lib, members, [Field(key, prop)], 1, log)
              == PropertyLog(lib, key, Lookup(members, key).value, prop, log)
    ensures !Present(members, key) && !prop.required ==> forall log ::
              FirstPropertiesLog(lib, members, [Field(key, prop)], 1, log) == Some(log)
  {
    hide PropertyLog, Lookup;
    assert MissingLog(members, [key], 0, []) == [];
    assert forall log :: FirstPropertiesLog(lib, members, [Field(key, prop)], 0, log) == Some(log);
  }

  lemma PlainProperty(lib: Library, key: string, value: Data, prop: Property)
    requires prop.items.AnyItems? && prop.kind != Some("object")
    ensures PropertyLog(lib, key, value, prop, [])
            == if !HasKind(value, prop.kind) then Some([FieldError(key, MustBe(prop.kind.value))])
               else Some(FormatLog(lib, key, value, prop, EnumLog(key, value, prop, BoundsLog(key, value, prop,
                                   PatternLog(lib, key, value, prop, [])))))
  {
    FirstError(key);
    hide FormatLog, EnumLog, BoundsLog, PatternLog;
    var log := EnumLog(key, value, prop, BoundsLog(key, value, prop, PatternLog(lib, key, value, prop, [])));
    if HasKind(value, prop.kind) {
      hide HasKind;
      assert ItemsLog(lib, key, value, prop, log) == Some(log) && NestedLog(lib, key, value, prop, log) == Some(log);
      assert PropertyLog(lib, key, value, prop, []) == Some(FormatLog(lib, key, value, prop, log));
    } else {
      assert prop.kind.Some?;
      hide HasKind;
      assert PropertyLog(lib, key, value, prop, []) == Some(Add([], key, MustBe(prop.kind.value)));
    }
  }

  /** An integer as a value. */
  function Integer(i: int): Data {
    Number(Finite(i as real))
  }

  /** What a declared type admits. */
  lemma KindMeans(lib: Library, key: string, value: Data, kind: string)
    requires !value.Null?
    ensures AcceptedIf(
              RequestLog(lib, OneMember(key, value), OneField(key, AnyProperty.(kind := Some(kind)))),
              if kind == "string" then value.Str?
              else if kind == "number" then value.Number?
              else if kind == "integer" then exists i :: value == Integer(i)
              else if kind == "boolean" then value.Bool?
              else if kind == "array" then value.Arr?
              else if kind == "object" then value.Obj?
              else true,
              key, MustBe(kind))
  {
    var prop := AnyProperty.(kind := Some(kind));
    FirstError(key);
    FieldChecked(lib, key, value, prop);
    hide RequestLog;
    if value.Number? && value.n.Finite? && value.n.IsInteger() {
      assert value == Integer(value.n.r.Floor);
    }
    if kind == "object" {
      assert value.Obj? ==> FirstFieldsLog(lib, key, value.members, prop, 0, []) == Some([]);
    } else {
      PlainProperty(lib, key, value, prop);
      hide PropertyLog;
    }
  }

  /** Strings are measured in UTF-16 code units. */
  lemma {:induction false} LengthMeans(s: string, t: string, c: char)
    ensures Length(s + t) == Length(s) + Length(t)
    ensures Length([c]) == if c as int < 0x10000 then 1 else 2
  {
    assert [c][..0] == "" && Length("") == 0;
    if t == "" {
      assert s + t == s;
    } else {
      LengthMeans(s, t[..|t| - 1], c);
      assert (s + t)[..|s + t| - 1] == s + t[..|t| - 1];
    }
  }

  lemma LengthBoundsMean(lib: Library, key: string, value: Data, bound: int)
    requires !value.Null?
    ensures AcceptedIf(RequestLog(lib, OneMember(key, value), OneField(key, AnyProperty.(minLength := Some(bound)))),
                       value.Str? ==> Length(value.s) >= bound, key, TooShort(bound))
    ensures AcceptedIf(RequestLog(lib, OneMember(key, value), OneField(key, AnyProperty.(maxLength := Some(bound)))),
                       value.Str? ==> Length(value.s) <= bound, key, TooLong(bound))
  {
    FieldChecked(lib, key, value, AnyProperty.(minLength := Some(bound)));
    FieldChecked(lib, key, value, AnyProperty.(maxLength := Some(bound)));
    PlainProperty(lib, key, value, AnyProperty.(minLength := Some(bound)));
    PlainProperty(lib, key, value, AnyProperty.(maxLength := Some(bound)));
    FirstError(key);
    hide RequestLog, PropertyLog, Length;
  }

  lemma SizeBoundsMean(lib: Library, key: string, value: Data, bound: int)
    requires !value.Null?
    ensures AcceptedIf(RequestLog(lib, OneMember(key, value), OneField(key, AnyProperty.(minItems := Some(bound)))),
                       value.Arr? ==> |value.items| >= bound, key, TooFewItems(bound))
    ensures AcceptedIf(RequestLog(lib, OneMember(key, value), OneField(key, AnyProperty.(maxItems := Some(bound)))),
                       value.Arr? ==> |value.items| <= bound, key, TooManyItems(bound))
  {
    FieldChecked(lib, key, value, AnyProperty.(minItems := Some(bound)));
    FieldChecked(lib, key, value, AnyProperty.(maxItems := Some(bound)));
    PlainProperty(lib, key, value, AnyProperty.(minItems := Some(bound)));
    PlainProperty(lib, key, value, AnyProperty.(maxItems := Some(bound)));
    FirstError(key);
    hide RequestLog, PropertyLog;
  }

  /** Bounds on numbers, the infinite ones included. */
  lemma RangeMeans(lib: Library, key: string, value: Data, bound: real)
    requires !value.Null?
    ensures var low := AnyProperty.(minimum := Some(Finite(bound)));
            AcceptedIf(RequestLog(lib, OneMember(key, value), OneField(key, low)),
                       value.Number? ==> value.n.PosInf? || (value.n.Finite? && value.n.r >= bound),
                       key, AtLeast(Finite(bound)))
    ensures var high := AnyProperty.(maximum := Some(Finite(bound)));
            AcceptedIf(RequestLog(lib, OneMember(key, value), OneField(key, high)),
                       value.Number? ==> value.n.NegInf? || (value.n.Finite? && value.n.r <= bound),
                       key, AtMost(Finite(bound)))
    ensures var above := AnyProperty.(exclusiveMinimum := Some(Finite(bound)));
            AcceptedIf(RequestLog(lib, OneMember(key, value), OneField(key, above)),
                       value.Number? ==> value.n.PosInf? || (value.n.Finite? && value.n.r > bound),
                       key, GreaterThan(Finite(bound)))
    ensures var below := AnyProperty.(exclusiveMaximum := Some(Finite(bound)));
            AcceptedIf(RequestLog(lib, OneMember(key, value), OneField(key, below)),
                       value.Number? ==> value.n.NegInf? || (value.n.Finite? && value.n.r < bound),
                       key, LessThan(Finite(bound)))
  {
    var (low, high) := (AnyProperty.(minimum := Some(Finite(bound))), AnyProperty.(maximum := Some(Finite(bound))));
    var above := AnyProperty.(exclusiveMinimum := Some(Finite(bound)));
    var below := AnyProperty.(exclusiveMaximum := Some(Finite(bound)));
    FieldChecked(lib, key, value, low);
    FieldChecked(lib, key, value, high);
    FieldChecked(lib, key, value, above);
    FieldChecked(lib, key, value, below);
    PlainProperty(lib, key, value, low);
    PlainProperty(lib, key, value, high);
    PlainProperty(lib, key, value, above);
    PlainProperty(lib, key, value, below);
    FirstError(key);
    hide RequestLog, PropertyLog;
  }

  /** A pattern that compiles tests strings; one that does not refuses every string; the empty one none. */
  lemma PatternMeans(lib: Library, key: string, value: Data, pattern: string)
    requires !value.Null?
    ensures var r := RequestLog(lib, OneMember(key, value), OneField(key, AnyProperty.(pattern := Some(pattern))));
            if value.Str? && pattern != "" && lib.matches(pattern, value.s) == None
            then r == Some([FieldError(key, BadPattern)])
            else AcceptedIf(r, value.Str? && pattern != "" ==> lib.matches(pattern, value.s) == Some(true),
                            key, PatternMismatch)
  {
    FieldChecked(lib, key, value, AnyProperty.(pattern := Some(pattern)));
    PlainProperty(lib, key, value, AnyProperty.(pattern := Some(pattern)));
    FirstError(key);
    hide RequestLog, PropertyLog;
  }

  /** An enum admits the listed values, and never an array or an object. */
  lemma EnumMeans(lib: Library, key: string, value: Data, values: seq<Data>)
    requires !value.Null?
    ensures AcceptedIf(RequestLog(lib, OneMember(key, value), OneField(key, AnyProperty.(values := Some(values)))),
                       match value
                       case Arr(_) => false
                       case Obj(_) => false
                       case _ => value in values,
                       key, NotOneOf(values))
  {
    FieldChecked(lib, key, value, AnyProperty.(values := Some(values)));
    PlainProperty(lib, key, value, AnyProperty.(values := Some(values)));
    FirstError(key);
    hide RequestLog, PropertyLog;
  }

  /** The five formats of strings; any other format admits everything. */
  lemma FormatMeans(lib: Library, key: string, value: Data, format: string)
    requires !value.Null?
    ensures AcceptedIf(
              RequestLog(lib, OneMember(key, value), OneField(key, AnyProperty.(format := Some(format)))),
              value.Str? ==>
                && (format == "date" ==>
                      lib.matches("^\\d{4}-\\d{2}-\\d{2}$", value.s) == Some(true) && lib.parsesAsDate(value.s))
                && (format == "date-time" ==> lib.parsesAsDate(value.s))
                && (format == "uuid" ==>
                      lib.matches("(?i)^[0-9a-f]{8}-[0-9a-f]{4}-[1-5][0-9a-f]{3}-[89ab][0-9a-f]{3}-[0-9a-f]{12}$",
                                  value.s) == Some(true))
                && (format == "email" ==> lib.matches("^[^\\s@]+@[^\\s@]+\\.[^\\s@]+$", value.s) == Some(true))
                && (format == "uri" ==> lib.parsesAsUrl(value.s)),
              key, InvalidFormat(format))
  {
    FieldChecked(lib, key, value, AnyProperty.(format := Some(format)));
    PlainProperty(lib, key, value, AnyProperty.(format := Some(format)));
    FirstError(key);
    hide RequestLog, PropertyLog;
  }

  /** A member that is missing or null is reported once as missing, and nothing else of it. */
  lemma RequiredMeans(lib: Library, key: string, prop: Property)
    requires !prop.required
    ensures RequestLog(lib, OneMember(key, Null), OneField(key, prop)) == Some([FieldError(key, Required(key))])
    ensures RequestLog(lib, None, OneField(key, prop)) == Some([FieldError(key, Required(key))])
  {
    FieldChecked(lib, key, Null, prop);
    hide *;
  }

  /** A key is refused exactly when the schema forbids undeclared keys and has no property of that name. */
  lemma UndeclaredMeans(lib: Library, key: string, value: Data, names: seq<string>, others: bool)
    ensures var fields := seq(|names|, i requires 0 <= i < |names| => Field(names[i], AnyProperty));
            AcceptedIf(RequestLog(lib, OneMember(key, value), Schema(Declared(fields), [], others)),
                       others || key in names, key, NotAllowed)
  {
    var fields := seq(|names|, i requires 0 <= i < |names| => Field(names[i], AnyProperty));
    var (schema, members) := (Schema(Declared(fields), [], others), [Member(key, value)]);
    assert UndeclaredLog(schema, members, 0, []) == [];
    FirstError(key);
    assert IsDeclared(schema.fields, key) <==> key in names by {
      if key in names {
        var i :| 0 <= i < |names| && names[i] == key;
        assert fields[i].key == key;
      }
    }
    FreeProperties(lib, members, fields, |fields|,
                   if others || key in names then [] else [FieldError(key, NotAllowed)]);
    hide IsDeclared, FirstPropertiesLog, Present;
  }

  lemma {:induction false} FreeProperties(lib: Library, members: seq<Member>, fields: seq<Field>, n: nat, log: Log)
    requires n <= |fields| && forall i | 0 <= i < n :: fields[i].prop == AnyProperty
    ensures FirstPropertiesLog(lib, members, fields, n, log) == Some(log)
  {
    if n > 0 {
      FreeProperties(lib, members, fields, n - 1, log);
      if Present(members, fields[n - 1].key) {
        FreeProperty(lib, fields[n - 1].key, Lookup(members, fields[n - 1].key).value, log);
      }
      hide PropertyLog, Lookup;
    }
  }

  lemma FreeProperty(lib: Library, key: string, value: Data, log: Log)
    ensures PropertyLog(lib, key, value, AnyProperty, log) == Some(log)
  {
    assert EnumLog(key, value, AnyProperty,
                   BoundsLog(key, value, AnyProperty, PatternLog(lib, key, value, AnyProperty, log))) == log;
    assert ItemsLog(lib, key, value, AnyProperty, log) == Some(log);
    assert NestedLog(lib, key, value, AnyProperty, log) == Some(log);
  }

  /** Looking up a key finds the first member that has it. */
  lemma {:induction false} LookupFirst(members: seq<Member>, key: string)
    ensures Lookup(members, key).Some?
            <==> exists i | 0 <= i < |members| :: members[i].key == key
    ensures forall i | && 0 <= i < |members| && members[i].key == key
                       && (forall j | 0 <= j < i :: members[j].key != key) ::
              Lookup(members, key) == Some(members[i].value)
  {
    if members != [] {
      LookupFirst(members[1..], key);
      assert forall i | 0 < i < |members| :: members[i] == members[1..][i - 1];
    }
  }

  /** Items of a declared type are reported by their place; other items are left alone. */
  lemma ItemKindMeans(lib: Library, key: string, item: Data, kind: string)
    requires kind in {"string", "number"}
    ensures AcceptedIf(
              RequestLog(lib, OneMember(key, Arr([item])),
                         OneField(key, AnyProperty.(items := Each(AnyProperty.(kind := Some(kind)))))),
              if kind == "string" then item.Str? else item.Number?,
              key, ItemMustBe(0, kind))
  {
    var each := AnyProperty.(kind := Some(kind));
    var listed := AnyProperty.(items := Each(each));
    FieldChecked(lib, key, Arr([item]), listed);
    FirstError(key);
    hide RequestLog, ObjectLog, ItemKey;
    assert FirstItemsLog(lib, key, [item], 0, each, []) == Some([]);
    assert FirstItemsLog(lib, key, [item], 1, each, []) == ItemLog(lib, key, 0, item, each, []);
    assert ItemsLog(lib, key, Arr([item]), listed, []) == ItemLog(lib, key, 0, item, each, []);
  }

  /** A required member of an object is named behind the object, and one of an array item behind the
      item's place. */
  lemma NestedNames(lib: Library, key: string, name: string)
    ensures var whole := AnyProperty.(kind := Some("object"), requiredProperties := [name]);
            RequestLog(lib, OneMember(key, Obj([])), OneField(key, whole))
            == Some([FieldError(key + ("." + name), Required(name))])
    ensures var item := AnyProperty.(kind := Some("object"), fields := Declared([]), requiredProperties := [name]);
            RequestLog(lib, OneMember(key, Arr([Obj([])])), OneField(key, AnyProperty.(items := Each(item))))
            == Some([FieldError(key + ("[0]." + name), Required(name))])
  {
    var whole := AnyProperty.(kind := Some("object"), requiredProperties := [name]);
    var item := whole.(fields := Declared([]));
    var listed := AnyProperty.(items := Each(item));
    FieldChecked(lib, key, Obj([]), whole);
    FieldChecked(lib, key, Arr([Obj([])]), listed);
    hide RequestLog;
    NestedMissing(lib, key, whole, name);
    NestedMissing(lib, ItemKey(key, 0), item, name);
    assert NatText(0) == "0";
    assert NestedKey(key, name) == key + ("." + name);
    assert NestedKey(ItemKey(key, 0), name) == key + ("[0]." + name);
    hide ObjectLog, NatText, ItemKey, NestedKey;
    assert FirstItemsLog(lib, key, [Obj([])], 0, item, []) == Some([]);
    assert FirstItemsLog(lib, key, [Obj([])], 1, item, []) == ItemLog(lib, key, 0, Obj([]), item, []);
    assert ItemLog(lib, key, 0, Obj([]), item, []) == ObjectLog(lib, ItemKey(key, 0), Obj([]), item, []);
    assert ItemsLog(lib, key, Arr([Obj([])]), listed, []) == ObjectLog(lib, ItemKey(key, 0), Obj([]), item, []);
  }

  /** So are the errors of a declared member. */
  lemma NestedErrors(lib: Library, key: string, name: string, value: Data)
    requires !value.Null? && !value.Str?
    ensures var nested := AnyProperty.(kind := Some("string"), required := true);
            var whole := AnyProperty.(kind := Some("object"), fields := Declared([Field(name, nested)]));
            && RequestLog(lib, OneMember(key, Obj([])), OneField(key, whole))
               == Some([FieldError(key + ("." + name), Required(name))])
            && RequestLog(lib, OneMember(key, Obj([Member(name, value)])), OneField(key, whole))
               == Some([FieldError(key + ("." + name), MustBe("string"))])
  {
    var nested := AnyProperty.(kind := Some("string"), required := true);
    var whole := AnyProperty.(kind := Some("object"), fields := Declared([Field(name, nested)]));
    FieldChecked(lib, key, Obj([]), whole);
    FieldChecked(lib, key, Obj([Member(name, value)]), whole);
    assert NestedKey(key, name) == key + ("." + name);
    FirstError(key + ("." + name));
    assert Lookup([], name) == None && Lookup([Member(name, value)], name) == Some(value);
    assert PropertyLog(lib, NestedKey(key, name), value, nested, [])
           == Some(Add([], NestedKey(key, name), MustBe("string")));
    hide RequestLog, PropertyLog, Lookup, NestedKey;
    OneNested(lib, key, [], whole, name, nested);
    OneNested(lib, key, [Member(name, value)], whole, name, nested);
    hide ObjectLog;
    WholeObject(lib, key, Obj([]), whole);
    WholeObject(lib, key, Obj([Member(name, value)]), whole);
  }

  lemma OneNested(lib: Library, key: string, members: seq<Member>, whole: Property, name: string, nested: Property)
    requires whole.fields == Declared([Field(name, nested)]) && whole.requiredProperties == [] && nested.required
    ensures ObjectLog(lib, key, Obj(members), whole, [])
            == if Present(members, name)
               then PropertyLog(lib, NestedKey(key, name), Lookup(members, name).value, nested, [])
               else Some(Add([], NestedKey(key, name), Required(name)))
  {
    hide PropertyLog, Lookup, NestedKey;
    assert FirstFieldsLog(lib, key, members, whole, 0, []) == Some([]);
    assert forall log :: RequiredLog(key, members, [], 0, log) == log;
  }

  /** An object whose property declares no more than its type and its fields. */
  lemma WholeObject(lib: Library, key: string, value: Data, whole: Property)
    requires value.Obj? && whole == AnyProperty.(kind := Some("object"), fields := whole.fields)
    ensures PropertyLog(lib, key, value, whole, []) == ObjectLog(lib, key, value, whole, [])
  {
    hide ObjectLog;
    assert ItemsLog(lib, key, value, whole, []) == Some([]);
    assert NestedLog(lib, key, value, whole, []) == ObjectLog(lib, key, value, whole, []);
  }

  lemma NestedMissing(lib: Library, key: string, prop: Property, name: string)
    requires prop.fields.Undeclared? || prop.fields.list == []
    requires prop.requiredProperties == [name]
    ensures ObjectLog(lib, key, Obj([]), prop, []) == Some([FieldError(NestedKey(key, name), Required(name))])
  {
    assert FirstFieldsLog(lib, key, [], prop, 0, []) == Some([]);
    assert RequiredLog(key, [], [name], 0, []) == [];
    assert Lookup([], name) == None;
    FirstError(NestedKey(key, name));
    hide NestedKey;
  }

  // --- items that are not objects ---------------------------------------------------------------

  /** An array whose items are declared objects with one required member. */
  const MilestoneSchema := Schema(
    Declared([Field("milestones", AnyProperty.(
      kind := Some("array"),
      items := Each(AnyProperty.(
        kind := Some("object"),
        fields := Declared([Field("title", AnyProperty.(required := true))])))))]),
    [], true)

  /** An item that is not an object passes although it has no title, and a null item throws. */
  lemma NonObjectItems(lib: Library, item: Data)
    requires item.Bool? || item.Number? || item.Str? || item.Arr? || item.Null?
    ensures var data := Some([Member("milestones", Arr([item]))]);
            && RequestLog(lib, data, MilestoneSchema) == (if item.Null? then None else Some([]))
            && !RequestConforms(lib, data, MilestoneSchema)
  {
    var members := [Member("milestones", Arr([item]))];
    var prop := MilestoneSchema.fields.list[0].prop;
    assert Lookup(members, "milestones") == Some(Arr([item]));
    assert FirstItemsLog(lib, "milestones", [item], 0, prop.items.item, []) == Some([]);
    assert ItemLog(lib, "milestones", 0, item, prop.items.item, []) == if item.Null? then None else Some([]);
    assert ItemsLog(lib, "milestones", Arr([item]), prop, []) == if item.Null? then None else Some([]);
    assert PropertyLog(lib, "milestones", Arr([item]), prop, []) == if item.Null? then None else Some([]);
    assert FirstPropertiesLog(lib, members, MilestoneSchema.fields.list, 0, []) == Some([]);
    assert FirstPropertiesLog(lib, members, MilestoneSchema.fields.list, 1, [])
           == if item.Null? then None else Some([]);
    assert !ItemConforms(lib, item, prop.items.item);
    assert !Conforms(lib, Arr([item]), prop) by {
      assert Arr([item]).items[0] == item;
    }
    assert !FieldConforms(lib, members, "milestones", prop);
  }
}
