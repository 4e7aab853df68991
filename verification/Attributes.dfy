/** How the base repository writes entity fields to database attributes and reads them back
    (src/repositories/base-repository.ts): objects and arrays travel as JSON strings. */
module Attributes {
  import opened Text
  import opened Json
  import opened JsonGrammar

  /** Attributes the schema declares as native arrays. */
  const NATIVE_ARRAY_ATTRIBUTES: set<string> := {"required_skill_ids", "requester_ids"}

  /** Fields that create() and update() never write. */
  const UNWRITTEN_FIELDS: set<string> := {"id", "created_at", "updated_at"}

  /** The value stored for one field. */
  function SerializeAttributeValue(key: string, value: Value): Value
    requires WellFormed(value)
  {
    if key in NATIVE_ARRAY_ATTRIBUTES && value.Arr? then value
    else if value.Arr? || value.Obj? then Str(Print(value))
    else value
  }

  predicate LooksLikeJson(s: string) {
    var trimmed := TrimStart(s);
    && trimmed != ""
    && (trimmed[0] == '[' || (trimmed[0] == '{' && '"' in trimmed))
  }

  function DeserializeIfNeeded(s: string): Value {
    if !LooksLikeJson(s) then Str(s)
    else
      match Parse(s)
      case None => Str(s)
      case Some(v) => v
  }

  /** What mapDocument makes of one stored value. */
  function ReadAttribute(stored: Value): Value {
    if stored.Str? then DeserializeIfNeeded(stored.text) else stored
  }

  // --- one attribute --------------------------------------------------------------------------

  /** The values that are changed on the way: the empty object, and strings that are the text of an array
      or of an object with members. */
  predicate Survives(value: Value) {
    value != Obj([]) && (value.Str? ==> !IsContainerText(value.text))
  }

  predicate IsContainerText(s: string) {
    Parse(s).Some? && (Parse(s).value.Arr? || (Parse(s).value.Obj? && Parse(s).value.members != []))
  }

  lemma PrintedArrayLooksLikeJson(v: Value)
    requires WellFormed(v) && v.Arr?
    ensures LooksLikeJson(Print(v))
  {
    hide ItemsThen, WellFormed;
    assert Print(v)[0] == '[';
    hide Print, ValueThen;
  }

  lemma PrintedObjectLooksLikeJson(v: Value)
    requires WellFormed(v) && v.Obj? && v.members != []
    ensures LooksLikeJson(Print(v))
  {
    MembersStart(v.members, "");
    hide MembersThen;
    var s := Print(v);
    assert s == "{" + MembersThen(v.members, "");
    assert s[1] == '"';
    hide Print;
    assert TrimStart(s) == s;
  }

  lemma ArrayIsArray(s: string)
    requires s != "" && ParseArray(s).Ok?
    ensures ParseArray(s).value.Arr?
  {
    hide ParseItems;
  }

  lemma ObjectIsObject(s: string)
    requires s != "" && ParseObject(s).Ok?
    ensures ParseObject(s).value.Obj?
  {
    hide ParseMembers;
  }

  lemma EmptyObjectStaysText()
    ensures WellFormed(Obj([])) && ReadAttribute(Str(Print(Obj([])))) == Str("{}")
  {
    assert Print(Obj([])) == "{}";
    assert TrimStart("{}") == "{}" && '"' !in "{}";
  }

  // --- what is stored, and which strings are read as JSON --------------------------------------

  /** Only under two keys is an array stored as it is; any other array, and every object, is stored as the
      text that parses to it, and every scalar unchanged. */
  lemma StoredForm(key: string, value: Value)
    requires WellFormed(value)
    ensures var stored := SerializeAttributeValue(key, value);
            var native := key in {"required_skill_ids", "requester_ids"};
            && !stored.Obj?
            && (stored.Arr? <==> value.Arr? && native)
            && (if value.Obj? || (value.Arr? && !native) then stored.Str? && Parse(stored.text) == Some(value)
                else stored == value)
  {
    ParsePrint(value);
    hide Print, Parse, WellFormed;
  }

  lemma {:induction false} TrimStartHead(s: string)
    requires SkipSpace(s) != "" && !IsSpace(SkipSpace(s)[0])
    ensures TrimStart(s) == SkipSpace(s)
  {
    if IsJsonSpace(s[0]) {
      TrimStartHead(s[1..]);
    }
  }

  /** A text that parses starts with an opening bracket or brace exactly when it is an array or an object. */
  lemma ParsedHead(s: string)
    requires ParseValue(s).Ok?
    ensures var (t, v) := (SkipSpace(s), ParseValue(s).value);
            t != "" && (t[0] == '[' <==> v.Arr?) && (t[0] == '{' <==> v.Obj?)
    ensures var (t, v) := (SkipSpace(s), ParseValue(s).value); v.Arr? || v.Obj? ==> !IsSpace(t[0])
  {
    hide SkipSpace, ParseArray, ParseObject, ParseNumber, ParseChars, StartsWith;
    var t := SkipSpace(s);
    if t[0] == '[' {
      ArrayIsArray(t);
    } else if t[0] == '{' {
      ObjectIsObject(t);
    } else {
      assert ParseValue(s) == ParseScalar(t);
    }
  }

  /** An object's text has a quote in it exactly when the object has members. */
  lemma QuotesInObject(s: string)
    requires s != "" && s[0] == '{' && ParseObject(s).Ok? && SkipSpace(ParseObject(s).rest) == ""
    ensures '"' in s <==> ParseObject(s).value != Obj([])
  {
    hide ParseMembers;
    var inside := SkipSpace(s[1..]);
    var blank := BlankFront(s[1..]);
    assert s == ['{'] + (blank + inside);
    if inside != "" && inside[0] == '}' {
      var end := BlankFront(inside[1..]);
      hide SkipSpace;
      assert inside == ['}'] + end;
      NoQuoteInBlank(blank);
      NoQuoteInBlank(end);
    } else {
      SkipSpaceTwice(s[1..]);
      MembersQuoted(s[1..]);
      hide SkipSpace;
      assert inside[0] == '"' && inside[0] in inside;
    }
  }

  lemma MembersQuoted(s: string)
    requires ParseMembers(s).Ok?
    ensures ParseMembers(s).value != [] && SkipSpace(s) != "" && SkipSpace(s)[0] == '"'
  {
    hide SkipSpace, ParseChars, ParseValue;
    AddMemberAdds();
    hide AddMember;
  }

  lemma AddMemberAdds()
    ensures forall m: Member, later: seq<Member> |
              && DistinctKeys(later) && WellFormed(m.value)
              && (forall i | 0 <= i < |later| :: WellFormed(later[i].value)) ::
              AddMember(m, later) != []
  {
  }

  lemma NoQuoteInBlank(s: string)
    requires IsBlank(s)
    ensures '"' !in s
  {
  }

  lemma {:induction false} SkipSpaceTwice(s: string)
    ensures SkipSpace(SkipSpace(s)) == SkipSpace(s)
  {
    if s != "" && IsJsonSpace(s[0]) {
      SkipSpaceTwice(s[1..]);
    }
  }

  /** Exactly the texts of arrays, and of objects with members, are read as JSON; any other string reads as
      itself. */
  lemma ReadsExactly(s: string)
    ensures DeserializeIfNeeded(s)
            == if IsContainerText(s) then Parse(s).value else Str(s)
  {
    if Parse(s).Some? {
      assert ParseValue(s).Ok? && ParseValue(s).value == Parse(s).value;
      ParsedHead(s);
      var t := SkipSpace(s);
      if t[0] == '[' {
        TrimStartHead(s);
      } else if t[0] == '{' {
        TrimStartHead(s);
        assert ParseValue(s) == ParseObject(t);
        QuotesInObject(t);
      } else if LooksLikeJson(s) {
        BracketHead(s);
      }
    }
    hide Parse, TrimStart, SkipSpace, ParseObject;
  }

  lemma {:induction false} SpaceThenBracket(s: string)
    requires TrimStart(s) != "" && (TrimStart(s)[0] == '[' || TrimStart(s)[0] == '{')
    ensures SkipSpace(s) != "" && (SkipSpace(s)[0] == '[' || SkipSpace(s)[0] == '{' || IsSpace(SkipSpace(s)[0]))
  {
    if IsJsonSpace(s[0]) {
      SpaceThenBracket(s[1..]);
    }
  }

  /** Only JSON's own whitespace may stand before a value. */
  lemma NoOtherSpace(s: string)
    requires SkipSpace(s) != "" && IsSpace(SkipSpace(s)[0])
    ensures ParseValue(s).Failed?
  {
    hide SkipSpace, ParseChars, ParseArray, ParseObject, StartsWith;
  }

  lemma BracketHead(s: string)
    requires TrimStart(s) != "" && (TrimStart(s)[0] == '[' || TrimStart(s)[0] == '{') && ParseValue(s).Ok?
    ensures SkipSpace(s)[0] == '[' || SkipSpace(s)[0] == '{'
  {
    SpaceThenBracket(s);
    hide *;
    if IsSpace(SkipSpace(s)[0]) {
      NoOtherSpace(s);
    }
  }

  /** A field value written and read back is unchanged exactly when it is neither the empty object
      nor a string that is the text of an array or of an object with members. */
  lemma AttributeRoundTrip(key: string, value: Value)
    requires WellFormed(value)
    ensures ReadAttribute(SerializeAttributeValue(key, value)) == value <==> Survives(value)
  {
    hide LooksLikeJson, Parse, Print, WellFormed;
    match value {
      case Arr(_) =>
        ParsePrint(value);
        PrintedArrayLooksLikeJson(value);
      case Obj(members) =>
        if members == [] {
          EmptyObjectStaysText();
        } else {
          ParsePrint(value);
          PrintedObjectLooksLikeJson(value);
        }
      case Str(s) => ReadsExactly(s);
      case _ =>
    }
  }

  // --- whole documents ------------------------------------------------------------------------

  /** An Appwrite document: system fields and attributes. */
  datatype Document = Document(id: string, createdAt: string, updatedAt: string, attributes: map<string, Value>)

  /** A field handed to create() or update(); None is an explicit undefined. */
  type Fields = map<string, Option<Value>>

  ghost predicate WellFormedFields(fields: Fields) {
    forall key | key in fields && fields[key].Some? :: WellFormed(fields[key].value)
  }

  predicate Written(fields: Fields, key: string) {
    key in fields && fields[key].Some? && key !in UNWRITTEN_FIELDS
  }

  /** The attributes create() and update() send for these fields. */
  ghost function StoredAttributes(fields: Fields): map<string, Value>
    requires WellFormedFields(fields)
  {
    map key | key in fields && Written(fields, key) :: SerializeAttributeValue(key, fields[key].value)
  }

  /** Which fields are stored, and how. */
  lemma StoredExactly(fields: Fields, key: string)
    requires WellFormedFields(fields)
    ensures var stored := StoredAttributes(fields);
            && (key in stored <==> key in fields && fields[key].Some? && key !in {"id", "created_at", "updated_at"})
            && (key in stored ==>
                  var (value, native) := (fields[key].value, key in {"required_skill_ids", "requester_ids"});
                  if value.Obj? || (value.Arr? && !native)
                  then stored[key].Str? && Parse(stored[key].text) == Some(value)
                  else stored[key] == value)
  {
    if key in fields && fields[key].Some? {
      StoredForm(key, fields[key].value);
    }
    hide SerializeAttributeValue, Parse, WellFormed;
  }

  /** The loop of create() and update() over the entries of the argument. */
  method SerializeFields(fields: Fields) returns (attributes: map<string, Value>)
    requires WellFormedFields(fields)
    ensures attributes == StoredAttributes(fields)
  {
    attributes := map[];
    var entries := fields.Keys;
    while entries != {}
      invariant entries <= fields.Keys
      invariant attributes == map key | key in StoredAttributes(fields) && key !in entries ::
          StoredAttributes(fields)[key]
      decreases entries
    {
      var key :| key in entries;
      entries := entries - {key};
      if key !in UNWRITTEN_FIELDS && fields[key].Some? {
        attributes := attributes[key := SerializeAttributeValue(key, fields[key].value)];
      }
    }
  }

  /** updateDocument merges the sent attributes into the stored ones and renews the system timestamp. */
  function Merge(doc: Document, attributes: map<string, Value>, now: string): Document {
    doc.(attributes := doc.attributes + attributes, updatedAt := now)
  }

  /** Entity fields of a document, before any string is read as JSON. */
  function FromAppwriteDoc(doc: Document): map<string, Value> {
    var named := map["id" := Str(doc.id)] + doc.attributes;
    named["created_at" := Timestamp(doc.attributes, "created_at", doc.createdAt)]
    ["updated_at" := Timestamp(doc.attributes, "updated_at", doc.updatedAt)]
  }

  /** An entity's own timestamp, or the system one when it is absent or null. */
  function Timestamp(attributes: map<string, Value>, key: string, system: string): Value {
    if key in attributes && attributes[key] != Null then attributes[key] else Str(system)
  }

  ghost function Entity(doc: Document): map<string, Value> {
    map key | key in FromAppwriteDoc(doc) :: ReadAttribute(FromAppwriteDoc(doc)[key])
  }

  /** mapDocument: replace each string field in place by what it reads as. */
  method MapDocument(doc: Document) returns (result: map<string, Value>)
    ensures result == Entity(doc)
  {
    var fields := FromAppwriteDoc(doc);
    result := fields;
    var keys := result.Keys;
    while keys != {}
      invariant keys <= result.Keys == fields.Keys
      invariant forall key | key in keys :: result[key] == fields[key]
      invariant forall key | key in result && key !in keys :: result[key] == ReadAttribute(fields[key])
      decreases keys
    {
      var key :| key in keys;
      keys := keys - {key};
      var value := result[key];
      if value.Str? {
        result := result[key := DeserializeIfNeeded(value.text)];
      }
    }
  }

  /** An entity's timestamps are its own, unless they are absent or null: then those of the document. */
  lemma Timestamps(doc: Document)
    ensures var (entity, own) := (Entity(doc), doc.attributes);
            && entity["created_at"] == (if "created_at" in own && own["created_at"] != Null
                                        then ReadAttribute(own["created_at"]) else DeserializeIfNeeded(doc.createdAt))
            && entity["updated_at"] == (if "updated_at" in own && own["updated_at"] != Null
                                        then ReadAttribute(own["updated_at"]) else DeserializeIfNeeded(doc.updatedAt))
  {
    assert forall s :: ReadAttribute(Str(s)) == DeserializeIfNeeded(s);
    hide DeserializeIfNeeded;
  }

  /** The entity read back after create() carries every written field unchanged exactly when every
      written value survives; it has no other attribute, and system timestamps. */
  lemma CreatedEntity(id: string, createdAt: string, updatedAt: string, fields: Fields)
    requires WellFormedFields(fields)
    ensures var entity := Entity(Document(id, createdAt, updatedAt, StoredAttributes(fields)));
            && entity.Keys == (set key | key in fields && Written(fields, key)) + UNWRITTEN_FIELDS
            && entity["id"] == DeserializeIfNeeded(id)
            && entity["created_at"] == DeserializeIfNeeded(createdAt)
            && entity["updated_at"] == DeserializeIfNeeded(updatedAt)
            && ((forall key | Written(fields, key) :: entity[key] == fields[key].value)
                <==> (forall key | Written(fields, key) :: Survives(fields[key].value)))
  {
    var doc := Document(id, createdAt, updatedAt, StoredAttributes(fields));
    hide Survives, ReadAttribute, SerializeAttributeValue, WellFormed;
    forall key | Written(fields, key)
      ensures key in Entity(doc)
      ensures Entity(doc)[key] == fields[key].value <==> Survives(fields[key].value)
    {
      assert Entity(doc)[key] == ReadAttribute(SerializeAttributeValue(key, fields[key].value));
      AttributeRoundTrip(key, fields[key].value);
    }
    assert forall s :: ReadAttribute(Str(s)) == DeserializeIfNeeded(s);
  }

  /** After update(), a field that was sent reads as on creation and every other field as before. */
  lemma UpdatedEntity(doc: Document, fields: Fields, now: string)
    requires WellFormedFields(fields)
    ensures var (before, after) := (Entity(doc), Entity(Merge(doc, StoredAttributes(fields), now)));
            && after.Keys == before.Keys + set key | key in fields && Written(fields, key)
            && (forall key | key in before && !Written(fields, key) && key != "updated_at" :: after[key] == before[key])
            && after["updated_at"] == ReadAttribute(Timestamp(doc.attributes, "updated_at", now))
            && (forall key | Written(fields, key) :: after[key] == fields[key].value <==> Survives(fields[key].value))
  {
    var merged := Merge(doc, StoredAttributes(fields), now);
    hide Survives, ReadAttribute, SerializeAttributeValue, WellFormed;
    forall key | Written(fields, key)
      ensures key in Entity(merged)
      ensures Entity(merged)[key] == fields[key].value <==> Survives(fields[key].value)
    {
      WrittenField(doc, fields, now, key);
      AttributeRoundTrip(key, fields[key].value);
    }
    UnwrittenFields(doc, fields, now);
    hide *;
  }

  lemma WrittenField(doc: Document, fields: Fields, now: string, key: string)
    requires WellFormedFields(fields) && Written(fields, key)
    ensures var after := Entity(Merge(doc, StoredAttributes(fields), now));
            key in after && after[key] == ReadAttribute(SerializeAttributeValue(key, fields[key].value))
  {
    hide ReadAttribute, SerializeAttributeValue, WellFormed, Timestamp;
    var merged := Merge(doc, StoredAttributes(fields), now);
    assert FromAppwriteDoc(merged)[key] == SerializeAttributeValue(key, fields[key].value);
  }

  lemma UnwrittenFields(doc: Document, fields: Fields, now: string)
    requires WellFormedFields(fields)
    ensures var (before, after) := (Entity(doc), Entity(Merge(doc, StoredAttributes(fields), now)));
            && after.Keys == before.Keys + set key | key in fields && Written(fields, key)
            && after["updated_at"] == ReadAttribute(Timestamp(doc.attributes, "updated_at", now))
            && forall key | key in before && !Written(fields, key) && key != "updated_at" :: after[key] == before[key]
  {
    hide ReadAttribute, SerializeAttributeValue, WellFormed;
  }
}
