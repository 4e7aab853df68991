/** Writing the validators' schemas into an OpenAPI document (applyValidationSchemasToSpec in
    src/config/swagger.ts). */
module OpenApi {
  import opened Text
  import Json
  import V = Validation

  datatype RequestBody = RequestBody(content: Option<map<string, Json.Value>>, rest: Json.Value)

  datatype Operation = Operation(requestBody: Option<RequestBody>, rest: Json.Value)

  /** The operations of a path by method, and the paths of a document. */
  type Item = map<string, Operation>

  type Paths = map<string, Item>

  datatype Spec = Spec(paths: Option<Paths>, rest: Json.Value)

  /** `operation` is the metadata for an operation the document does not have yet. */
  datatype Endpoint = Endpoint(path: string, verb: string, schema: V.Schema, contentType: Option<string>,
                               operation: Json.Value)
  {
    function Type(): string {
      match contentType
      case None => "application/json"
      case Some(t) => t
    }
  }

  predicate IsNoBody(schema: V.Schema) {
    (schema.fields.Undeclared? || schema.fields.list == []) && schema.required == []
  }

  /** The body of a new operation; `required` is true. */
  const NewBody := RequestBody(Some(map[]), Json.Obj([Json.Member("required", Json.Bool(true))]))

  // --- one entry -------------------------------------------------------------------------------

  /** What an entry makes of its operation; `convert` turns a validator's schema into OpenAPI. */
  function Rewritten(was: Option<Operation>, e: Endpoint, convert: V.Schema -> Json.Value): Operation {
    var operation := if was.Some? then was.value else Operation(None, e.operation);
    if IsNoBody(e.schema) then operation.(requestBody := None)
    else
      var body := if operation.requestBody.Some? then operation.requestBody.value else NewBody;
      var content := if body.content.Some? then body.content.value else map[];
      operation.(requestBody := Some(body.(content := Some(content[e.Type() := convert(e.schema)]))))
  }

  function Find(paths: Paths, path: string, verb: string): Option<Operation> {
    if path in paths && verb in paths[path] then Some(paths[path][verb]) else None
  }

  function Put(paths: Paths, path: string, verb: string, operation: Operation): Paths {
    paths[path := (if path in paths then paths[path] else map[])[verb := operation]]
  }

  function Apply(paths: Paths, e: Endpoint, convert: V.Schema -> Json.Value): Paths {
    Put(paths, e.path, e.verb, Rewritten(Find(paths, e.path, e.verb), e, convert))
  }

  function ApplyAll(paths: Paths, endpoints: seq<Endpoint>, convert: V.Schema -> Json.Value): Paths {
    if endpoints == [] then paths
    else Apply(ApplyAll(paths, endpoints[..|endpoints| - 1], convert), endpoints[|endpoints| - 1], convert)
  }

  function PathsOf(spec: Spec): Paths {
    if spec.paths.Some? then spec.paths.value else map[]
  }

  /** The document with the schemas applied; the document it is given is copied first. */
  method ApplyValidationSchemasToSpec(spec: Spec, endpoints: seq<Endpoint>, convert: V.Schema -> Json.Value)
    returns (next: Spec)
    ensures next == spec.(paths := Some(ApplyAll(PathsOf(spec), endpoints, convert)))
    ensures spec.paths.Some? ==> next.paths == Some(ApplyAll(spec.paths.value, endpoints, convert))
    ensures spec.paths == None ==> next.paths == Some(ApplyAll(map[], endpoints, convert))
  {
    var paths := PathsOf(spec);
    for i := 0 to |endpoints|
      invariant paths == ApplyAll(PathsOf(spec), endpoints[..i], convert)
    {
      assert endpoints[..i + 1][..i] == endpoints[..i];
      var e := endpoints[i];
      var item := if e.path in paths then paths[e.path] else map[];
      var operation := if e.verb in item then item[e.verb] else Operation(None, e.operation);
      if IsNoBody(e.schema) {
        operation := operation.(requestBody := None);
        paths := paths[e.path := item[e.verb := operation]];
        continue;
      }
      var requestBody := if operation.requestBody.Some? then operation.requestBody.value else NewBody;
      var content := if requestBody.content.Some? then requestBody.content.value else map[];
      content := content[e.Type() := convert(e.schema)];
      requestBody := requestBody.(content := Some(content));
      operation := operation.(requestBody := Some(requestBody));
      paths := paths[e.path := item[e.verb := operation]];
    }
    assert endpoints[..|endpoints|] == endpoints;
    next := spec.(paths := Some(paths));
  }

  // --- one operation under the whole list ---------------------------------------------------------

  /** What the entries for one operation amount to: whether its body is started afresh, and the
      content they set. */
  datatype Effect = Effect(touched: bool, metadata: Json.Value, restarted: bool, hasBody: bool,
                           content: map<string, Json.Value>)

  const Untouched := Effect(false, Json.Null, false, false, map[])

  function EffectOf(endpoints: seq<Endpoint>, path: string, verb: string, convert: V.Schema -> Json.Value): Effect {
    if endpoints == [] then Untouched
    else
      var (f, e) := (EffectOf(endpoints[..|endpoints| - 1], path, verb, convert), endpoints[|endpoints| - 1]);
      if e.path != path || e.verb != verb then f
      else
        var metadata := if f.touched then f.metadata else e.operation;
        if IsNoBody(e.schema) then Effect(true, metadata, true, false, map[])
        else Effect(true, metadata, f.restarted, true, f.content[e.Type() := convert(e.schema)])
  }

  function Overlay(body: RequestBody, content: map<string, Json.Value>): RequestBody {
    body.(content := Some((if body.content.Some? then body.content.value else map[]) + content))
  }

  function Affect(f: Effect, was: Option<Operation>): Option<Operation> {
    if !f.touched then was
    else
      var operation := if was.Some? then was.value else Operation(None, f.metadata);
      var body := if f.restarted then None else operation.requestBody;
      if !f.hasBody then Some(operation.(requestBody := body))
      else Some(operation.(requestBody := Some(Overlay(if body.Some? then body.value else NewBody, f.content))))
  }

  lemma OverlayMore(base: map<string, Json.Value>, c: map<string, Json.Value>, t: string, s: Json.Value)
    ensures (base + c)[t := s] == base + c[t := s]
    ensures base + c + c == base + c
    ensures base + map[] == base
  {
  }

  lemma RewrittenAfter(f: Effect, was: Option<Operation>, e: Endpoint, convert: V.Schema -> Json.Value)
    requires !f.hasBody ==> f.content == map[]
    requires !f.touched ==> !f.hasBody && !f.restarted
    requires !IsNoBody(e.schema)
    ensures Some(Rewritten(Affect(f, was), e, convert))
            == Affect(Effect(true, if f.touched then f.metadata else e.operation, f.restarted, true,
                             f.content[e.Type() := convert(e.schema)]), was)
  {
    hide IsNoBody;
    var operation := if was.Some? then was.value else Operation(None, if f.touched then f.metadata else e.operation);
    var body := if f.restarted || operation.requestBody.None? then NewBody else operation.requestBody.value;
    var base := if body.content.Some? then body.content.value else map[];
    OverlayMore(base, f.content, e.Type(), convert(e.schema));
    if !f.hasBody {
      OverlayMore(base, map[], e.Type(), convert(e.schema));
    }
  }

  /** What a document says of each operation is decided by the entries for that operation alone. */
  lemma {:induction false} OperationAffected(paths: Paths, endpoints: seq<Endpoint>, convert: V.Schema -> Json.Value,
                                             path: string, verb: string)
    ensures Find(ApplyAll(paths, endpoints, convert), path, verb)
            == Affect(EffectOf(endpoints, path, verb, convert), Find(paths, path, verb))
  {
    if endpoints != [] {
      var (init, e) := (endpoints[..|endpoints| - 1], endpoints[|endpoints| - 1]);
      OperationAffected(paths, init, convert, path, verb);
      EffectWellFormed(init, path, verb, convert);
      hide IsNoBody;
      var paths' := ApplyAll(paths, init, convert);
      var operation := Rewritten(Find(paths', e.path, e.verb), e, convert);
      assert ApplyAll(paths, endpoints, convert) == Put(paths', e.path, e.verb, operation);
      if e.path != path || e.verb != verb {
        hide Rewritten;
      } else if IsNoBody(e.schema) {
        PutFind(paths', path, verb, operation);
        hide Find, Put, ApplyAll;
      } else {
        PutFind(paths', path, verb, operation);
        RewrittenAfter(EffectOf(init, path, verb, convert), Find(paths, path, verb), e, convert);
        hide Find, Put, ApplyAll, Affect, Rewritten;
      }
    }
  }

  lemma {:induction false} EffectWellFormed(endpoints: seq<Endpoint>, path: string, verb: string,
                                            convert: V.Schema -> Json.Value)
    ensures var f := EffectOf(endpoints, path, verb, convert);
            && (!f.hasBody ==> f.content == map[])
            && (!f.touched ==> !f.hasBody && !f.restarted)
  {
    if endpoints != [] {
      EffectWellFormed(endpoints[..|endpoints| - 1], path, verb, convert);
    }
  }

  lemma AffectTwice(f: Effect, was: Option<Operation>)
    ensures Affect(f, Affect(f, was)) == Affect(f, was)
  {
    var operation := if was.Some? then was.value else Operation(None, f.metadata);
    var body := if f.restarted || operation.requestBody.None? then NewBody else operation.requestBody.value;
    var base := if body.content.Some? then body.content.value else map[];
    OverlayMore(base, f.content, "", Json.Null);
  }

  /** An operation that no entry names is left as it was. */
  lemma {:induction false} OthersUnchanged(paths: Paths, endpoints: seq<Endpoint>, convert: V.Schema -> Json.Value,
                                           path: string, verb: string)
    requires forall i | 0 <= i < |endpoints| :: endpoints[i].path != path || endpoints[i].verb != verb
    ensures Find(ApplyAll(paths, endpoints, convert), path, verb) == Find(paths, path, verb)
  {
    if endpoints != [] {
      OthersUnchanged(paths, endpoints[..|endpoints| - 1], convert, path, verb);
    }
  }

  /** What an operation says of an entry's body: the converted schema under its content type, or no
      body at all. */
  predicate Documents(operation: Option<Operation>, e: Endpoint, convert: V.Schema -> Json.Value) {
    operation.Some? &&
    var body := operation.value.requestBody;
    if IsNoBody(e.schema) then body == None
    else body.Some? && body.value.content.Some? && e.Type() in body.value.content.value
         && body.value.content.value[e.Type()] == convert(e.schema)
  }

  /** A later entry for the same operation that leaves what an entry wrote alone. */
  predicate Spares(later: Endpoint, e: Endpoint) {
    if IsNoBody(e.schema) then IsNoBody(later.schema)
    else !IsNoBody(later.schema) && later.Type() != e.Type()
  }

  /** Every entry is documented, unless a later one for its operation replaces it. */
  lemma {:induction false} EntryDocumented(paths: Paths, endpoints: seq<Endpoint>, convert: V.Schema -> Json.Value,
                                           i: nat)
    requires i < |endpoints|
    requires forall j | i < j < |endpoints|
                        && endpoints[j].path == endpoints[i].path && endpoints[j].verb == endpoints[i].verb ::
               Spares(endpoints[j], endpoints[i])
    ensures Documents(Find(ApplyAll(paths, endpoints, convert), endpoints[i].path, endpoints[i].verb),
                      endpoints[i], convert)
  {
    var (init, last, e) := (endpoints[..|endpoints| - 1], endpoints[|endpoints| - 1], endpoints[i]);
    var before := ApplyAll(paths, init, convert);
    var operation := Rewritten(Find(before, last.path, last.verb), last, convert);
    assert ApplyAll(paths, endpoints, convert) == Put(before, last.path, last.verb, operation);
    PutFind(before, last.path, last.verb, operation);
    if i < |init| {
      EntryDocumented(paths, init, convert, i);
      assert Spares(last, e) || last.path != e.path || last.verb != e.verb;
    }
    hide IsNoBody, ApplyAll;
  }

  /** A schema that asks for something: it declares a member or requires one. */
  predicate AsksForBody(schema: V.Schema) {
    (schema.fields.Declared? && |schema.fields.list| > 0) || |schema.required| > 0
  }

  /** The operation of an entry that no later one follows: without a body when the entry's schema asks for
      none, and otherwise with its schema under its content type, JSON by default. An operation the
      document did not have brings the entry's metadata, and a new body is a required one. */
  lemma LastEntryDecides(paths: Paths, endpoints: seq<Endpoint>, convert: V.Schema -> Json.Value, i: nat)
    requires i < |endpoints|
    requires forall j | i < j < |endpoints| ::
               endpoints[j].path != endpoints[i].path || endpoints[j].verb != endpoints[i].verb
    ensures var e := endpoints[i];
            var operation := Find(ApplyAll(paths, endpoints, convert), e.path, e.verb);
            && operation.Some?
            && (operation.value.requestBody.Some? <==> AsksForBody(e.schema))
            && (AsksForBody(e.schema) ==>
                  var content := operation.value.requestBody.value.content;
                  var contentType := if e.contentType.Some? then e.contentType.value else "application/json";
                  content.Some? && contentType in content.value && content.value[contentType] == convert(e.schema))
  {
    hide Find, ApplyAll, Spares;
    EntryDocumented(paths, endpoints, convert, i);
  }

  /** An operation that one entry names and the document did not have. */
  lemma NewOperation(paths: Paths, e: Endpoint, convert: V.Schema -> Json.Value)
    requires Find(paths, e.path, e.verb) == None
    ensures var contentType := if e.contentType.Some? then e.contentType.value else "application/json";
            var required := Json.Obj([Json.Member("required", Json.Bool(true))]);
            Find(ApplyAll(paths, [e], convert), e.path, e.verb)
            == Some(Operation(if AsksForBody(e.schema)
                              then Some(RequestBody(Some(map[contentType := convert(e.schema)]), required)) else None,
                              e.operation))
  {
    assert [e][..0] == [] && ApplyAll(paths, [], convert) == paths;
    assert ApplyAll(paths, [e], convert) == Apply(paths, e, convert);
    PutFind(paths, e.path, e.verb, Rewritten(None, e, convert));
    hide Find, Put, ApplyAll;
  }

  // --- the whole document ------------------------------------------------------------------------

  predicate Named(endpoints: seq<Endpoint>, path: string) {
    exists i | 0 <= i < |endpoints| :: endpoints[i].path == path
  }

  lemma {:induction false} PathsAdded(paths: Paths, endpoints: seq<Endpoint>, convert: V.Schema -> Json.Value,
                                      path: string)
    ensures path in ApplyAll(paths, endpoints, convert) <==> path in paths || Named(endpoints, path)
  {
    if endpoints != [] {
      PathsAdded(paths, endpoints[..|endpoints| - 1], convert, path);
      hide Rewritten, Find;
    }
  }

  /** Documents with the same paths and the same operations are the same. */
  lemma SamePaths(a: Paths, b: Paths)
    requires forall path :: path in a <==> path in b
    requires forall path, verb :: Find(a, path, verb) == Find(b, path, verb)
    ensures a == b
  {
    forall path | path in a ensures a[path] == b[path] {
      forall verb ensures verb in a[path] <==> verb in b[path] {
        assert Find(a, path, verb) == Find(b, path, verb);
      }
      forall verb | verb in a[path] ensures a[path][verb] == b[path][verb] {
        assert Find(a, path, verb) == Find(b, path, verb);
      }
    }
  }

  /** Applying the schemas again changes nothing, for every document and every list. */
  lemma ApplyIdempotent(paths: Paths, endpoints: seq<Endpoint>, convert: V.Schema -> Json.Value)
    ensures ApplyAll(ApplyAll(paths, endpoints, convert), endpoints, convert) == ApplyAll(paths, endpoints, convert)
  {
    var once := ApplyAll(paths, endpoints, convert);
    var twice := ApplyAll(once, endpoints, convert);
    forall path ensures path in twice <==> path in once {
      PathsAdded(paths, endpoints, convert, path);
      PathsAdded(once, endpoints, convert, path);
    }
    forall path, verb ensures Find(twice, path, verb) == Find(once, path, verb) {
      var f := EffectOf(endpoints, path, verb, convert);
      OperationAffected(paths, endpoints, convert, path, verb);
      OperationAffected(once, endpoints, convert, path, verb);
      AffectTwice(f, Find(paths, path, verb));
    }
    hide *;
    SamePaths(twice, once);
  }

  /** Two entries for one operation with bodies of different types can be applied in either order
      exactly when the operation is there already or both bring the same metadata. */
  lemma OrderIrrelevant(paths: Paths, e1: Endpoint, e2: Endpoint, convert: V.Schema -> Json.Value)
    requires e1.path == e2.path && e1.verb == e2.verb && e1.Type() != e2.Type()
    requires !IsNoBody(e1.schema) && !IsNoBody(e2.schema)
    ensures Apply(Apply(paths, e1, convert), e2, convert) == Apply(Apply(paths, e2, convert), e1, convert)
            <==> Find(paths, e1.path, e1.verb).Some? || e1.operation == e2.operation
  {
    var (p, v, was) := (e1.path, e1.verb, Find(paths, e1.path, e1.verb));
    PutFind(paths, p, v, Rewritten(was, e1, convert));
    PutFind(paths, p, v, Rewritten(was, e2, convert));
    hide Find, Put, Rewritten;
    var (a, b) := (Rewritten(Some(Rewritten(was, e1, convert)), e2, convert),
                   Rewritten(Some(Rewritten(was, e2, convert)), e1, convert));
    PutTwice(paths, p, v, Rewritten(was, e1, convert), a);
    PutTwice(paths, p, v, Rewritten(was, e2, convert), b);
    PutFind(paths, p, v, a);
    PutFind(paths, p, v, b);
    RewrittenTwice(was, e1, e2, convert);
  }

  lemma PutFind(paths: Paths, path: string, verb: string, operation: Operation)
    ensures Find(Put(paths, path, verb, operation), path, verb) == Some(operation)
  {
  }

  lemma PutTwice(paths: Paths, path: string, verb: string, first: Operation, second: Operation)
    ensures Put(Put(paths, path, verb, first), path, verb, second) == Put(paths, path, verb, second)
  {
    var item: Item := if path in paths then paths[path] else map[];
    assert item[verb := first][verb := second] == item[verb := second];
  }

  lemma RewrittenTwice(was: Option<Operation>, e1: Endpoint, e2: Endpoint, convert: V.Schema -> Json.Value)
    requires e1.Type() != e2.Type() && !IsNoBody(e1.schema) && !IsNoBody(e2.schema)
    ensures Rewritten(Some(Rewritten(was, e1, convert)), e2, convert)
            == Rewritten(Some(Rewritten(was, e2, convert)), e1, convert)
            <==> was.Some? || e1.operation == e2.operation
  {
    hide IsNoBody;
    var body := if was.Some? && was.value.requestBody.Some? then was.value.requestBody.value else NewBody;
    var base := if body.content.Some? then body.content.value else map[];
    SwapUpdates(base, e1.Type(), e2.Type(), convert(e1.schema), convert(e2.schema));
  }

  lemma SwapUpdates(base: map<string, Json.Value>, t1: string, t2: string, s1: Json.Value, s2: Json.Value)
    requires t1 != t2
    ensures base[t1 := s1][t2 := s2] == base[t2 := s2][t1 := s1]
  {
  }

  /** Entries for different operations can always be applied in either order. */
  lemma OtherOperationsIndependent(paths: Paths, e1: Endpoint, e2: Endpoint, convert: V.Schema -> Json.Value)
    requires e1.path != e2.path || e1.verb != e2.verb
    ensures Apply(Apply(paths, e1, convert), e2, convert) == Apply(Apply(paths, e2, convert), e1, convert)
  {
    var (a, b) := (Apply(Apply(paths, e1, convert), e2, convert), Apply(Apply(paths, e2, convert), e1, convert));
    hide Rewritten;
    SamePaths(a, b);
  }

  // --- the operations without a body ------------------------------------------------------------

  /** An operation documented without a body takes none, as far as its validator forbids undeclared
      members. */
  lemma NoBodyMeansEmpty(lib: V.Library, data: Option<seq<V.Member>>, schema: V.Schema)
    requires !AsksForBody(schema)
    ensures V.RequestConforms(lib, data, schema) <==> schema.additionalProperties || data == None || data.value == []
  {
    if data.Some? && data.value != [] {
      assert !V.IsDeclared(schema.fields, data.value[0].key);
    }
  }
}
