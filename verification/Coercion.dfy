/** Turning the strings of query parameters and multipart forms into the declared types
    (coerceStringValues in src/middleware/validation-core.ts). */
module Coercion {
  import opened Text
  import opened Validation

  /** Number(): None is NaN. */
  type NumberOf = string -> Option<Num>

  function Parts(s: string): seq<Data> {
    seq(|CommaSplit(s)|, i requires 0 <= i < |CommaSplit(s)| => Str(Trim(CommaSplit(s)[i])))
  }

  function Coerced(value: Data, kind: Option<string>, numberOf: NumberOf): Data {
    if !value.Str? then value
    else if kind == Some("number") then
      var n := numberOf(value.s);
      if n.Some? then Number(n.value) else value
    else if kind == Some("integer") then
      var n := numberOf(value.s);
      if n.Some? && n.value.IsInteger() then Number(n.value) else value
    else if kind == Some("boolean") then
      if value.s == "true" then Bool(true) else if value.s == "false" then Bool(false) else value
    else if kind == Some("array") then Arr(Parts(value.s))
    else value
  }

  function SetMember(members: seq<Member>, key: string, value: Data): (r: seq<Member>) {
    if members == [] then []
    else if members[0].key == key then [Member(key, value)] + members[1..]
    else [members[0]] + SetMember(members[1..], key, value)
  }

  function CoerceFirst(members: seq<Member>, fields: seq<Field>, n: nat, numberOf: NumberOf): seq<Member>
    requires n <= |fields|
  {
    if n == 0 then members
    else
      var before := CoerceFirst(members, fields, n - 1, numberOf);
      var value := Lookup(before, fields[n - 1].key);
      if value.None? then before
      else SetMember(before, fields[n - 1].key, Coerced(value.value, fields[n - 1].prop.kind, numberOf))
  }

  function Coerce(members: seq<Member>, fields: Fields, numberOf: NumberOf): seq<Member> {
    if fields.Undeclared? then members else CoerceFirst(members, fields.list, |fields.list|, numberOf)
  }

  method CoerceStringValues(value: seq<Member>, fields: Fields, numberOf: NumberOf) returns (coerced: seq<Member>)
    ensures coerced == Coerce(value, fields, numberOf)
  {
    if fields.Undeclared? {
      return value;
    }
    coerced := value;
    for i := 0 to |fields.list|
      invariant coerced == CoerceFirst(value, fields.list, i, numberOf)
    {
      hide Lookup, SetMember, Parts;
      var Field(key, prop) := fields.list[i];
      var found := Lookup(coerced, key);
      if found.None? {
        continue;
      }
      var current := found.value;
      if prop.kind == Some("number") && current.Str? {
        var n := numberOf(current.s);
        if n.Some? {
          current := Number(n.value);
        }
      }
      if prop.kind == Some("integer") && current.Str? {
        var n := numberOf(current.s);
        if n.Some? && n.value.IsInteger() {
          current := Number(n.value);
        }
      }
      if prop.kind == Some("boolean") && current.Str? {
        if current.s == "true" {
          current := Bool(true);
        } else if current.s == "false" {
          current := Bool(false);
        }
      }
      if prop.kind == Some("array") && current.Str? {
        current := Arr(Parts(current.s));
      }
      coerced := SetMember(coerced, key, current);
    }
  }

  // --- what becomes of a string -----------------------------------------------------------------

  /** The text of what a string was coerced to, where it has one. */
  function Spelling(value: Data): string
    requires value.Bool? || value.Str?
  {
    match value
    case Bool(b) => if b then "true" else "false"
    case Str(s) => s
  }

  /** A coerced boolean is spelled as the string was, a number is the one the string spells, and the
      elements of a list, untrimmed and joined with commas, are the string; what spells no value of the
      declared kind is left as it is. */
  lemma CoercedSpells(s: string, kind: string, numberOf: NumberOf)
    ensures var c := Coerced(Str(s), Some(kind), numberOf);
            && (kind == "boolean" ==> (c.Bool? <==> s in {"true", "false"}) && (c.Bool? || c.Str?) && Spelling(c) == s)
            && (kind == "number" ==>
                  if numberOf(s).Some? then c == Number(numberOf(s).value) else c == Str(s))
            && (kind == "integer" ==>
                  if exists i :: numberOf(s) == Some(Whole(i)) then c == Number(numberOf(s).value) else c == Str(s))
            && (kind == "array" ==> c.Arr? && exists parts: seq<string> | parts != [] && |parts| == |c.items| ::
                  && CommaJoin(parts) == s
                  && forall i | 0 <= i < |parts| :: ',' !in parts[i] && c.items[i] == Str(Trim(parts[i])))
            && (kind !in {"boolean", "number", "integer", "array"} ==> c == Str(s))
  {
    hide CommaSplit, CommaJoin, Trim;
    if kind == "array" {
      CommaSplitJoins(s);
    } else if kind == "integer" && numberOf(s).Some? && numberOf(s).value.IsInteger() {
      assert numberOf(s) == Some(Whole(numberOf(s).value.r.Floor));
    }
  }

  function Whole(i: int): Num {
    Finite(i as real)
  }

  // --- what coercion achieves ------------------------------------------------------------------

  lemma {:induction false} LookupSet(members: seq<Member>, key: string, value: Data, other: string)
    ensures Lookup(SetMember(members, key, value), other)
            == if other == key && Lookup(members, key).Some? then Some(value) else Lookup(members, other)
  {
    if members != [] {
      LookupSet(members[1..], key, value, other);
    }
  }

  lemma {:induction false} SetSame(members: seq<Member>, key: string)
    requires Lookup(members, key).Some?
    ensures SetMember(members, key, Lookup(members, key).value) == members
  {
    if members[0].key != key {
      SetSame(members[1..], key);
    }
  }

  ghost predicate DistinctFields(fields: seq<Field>) {
    forall i, j | 0 <= i < j < |fields| :: fields[i].key != fields[j].key
  }

  predicate SettledField(members: seq<Member>, field: Field, numberOf: NumberOf) {
    var value := Lookup(members, field.key);
    value.Some? ==> Coerced(value.value, field.prop.kind, numberOf) == value.value
  }

  ghost predicate Settled(members: seq<Member>, fields: Fields, numberOf: NumberOf) {
    fields.Declared? ==> forall i | 0 <= i < |fields.list| :: SettledField(members, fields.list[i], numberOf)
  }

  lemma {:induction false} SettledUnchanged(members: seq<Member>, fields: seq<Field>, n: nat, numberOf: NumberOf)
    requires n <= |fields| && forall i | 0 <= i < n :: SettledField(members, fields[i], numberOf)
    ensures CoerceFirst(members, fields, n, numberOf) == members
  {
    if n > 0 {
      SettledUnchanged(members, fields, n - 1, numberOf);
      assert SettledField(members, fields[n - 1], numberOf);
      if Lookup(members, fields[n - 1].key).Some? {
        SetSame(members, fields[n - 1].key);
      }
      hide Lookup, SetMember, Coerced;
    }
  }

  lemma {:induction false} CoercedSettled(members: seq<Member>, fields: seq<Field>, n: nat, numberOf: NumberOf)
    requires n <= |fields| && DistinctFields(fields)
    ensures forall i | 0 <= i < n :: SettledField(CoerceFirst(members, fields, n, numberOf), fields[i], numberOf)
  {
    if n > 0 {
      CoercedSettled(members, fields, n - 1, numberOf);
      var before := CoerceFirst(members, fields, n - 1, numberOf);
      var (field, value) := (fields[n - 1], Lookup(before, fields[n - 1].key));
      if value.Some? {
        var c := Coerced(value.value, field.prop.kind, numberOf);
        CoercedTwice(value.value, field.prop.kind, numberOf);
        hide Lookup, SetMember, Coerced;
        forall i | 0 <= i < n ensures SettledField(SetMember(before, field.key, c), fields[i], numberOf) {
          LookupSet(before, field.key, c, fields[i].key);
          assert i < n - 1 ==> SettledField(before, fields[i], numberOf);
        }
      }
    }
  }

  lemma CoercedTwice(value: Data, kind: Option<string>, numberOf: NumberOf)
    ensures var c := Coerced(value, kind, numberOf); Coerced(c, kind, numberOf) == c
  {
    hide Parts;
  }

  /** Coercing again changes nothing. */
  lemma CoerceIdempotent(members: seq<Member>, fields: Fields, numberOf: NumberOf)
    requires fields.Declared? ==> DistinctFields(fields.list)
    ensures var once := Coerce(members, fields, numberOf); Coerce(once, fields, numberOf) == once
  {
    if fields.Declared? {
      CoercedSettled(members, fields.list, |fields.list|, numberOf);
      hide CoerceFirst, SettledField;
      SettledUnchanged(Coerce(members, fields, numberOf), fields.list, |fields.list|, numberOf);
    }
  }

  /** Data that conforms already is left as it is. */
  lemma ConformingUnchanged(lib: Library, members: seq<Member>, schema: Schema, numberOf: NumberOf)
    requires RequestConforms(lib, Some(members), schema)
    ensures Coerce(members, schema.fields, numberOf) == members
  {
    if schema.fields.Declared? {
      var fields := schema.fields.list;
      forall i | 0 <= i < |fields| ensures SettledField(members, fields[i], numberOf) {
        assert FieldConforms(lib, members, fields[i].key, fields[i].prop);
        if Present(members, fields[i].key) {
          ConformingSettled(lib, Lookup(members, fields[i].key).value, fields[i].prop, numberOf);
        }
        hide Conforms, Coerced;
      }
      hide SettledField, CoerceFirst;
      SettledUnchanged(members, fields, |fields|, numberOf);
    }
  }

  lemma ConformingSettled(lib: Library, value: Data, prop: Property, numberOf: NumberOf)
    requires Conforms(lib, value, prop)
    ensures Coerced(value, prop.kind, numberOf) == value
  {
    hide SimpleHolds, HasFormat, ItemConforms, ObjectConforms;
  }
}
