/**
 The JSON documents of a publication (src/publish.py:263-339, 378-390).

 JSON text is modelled by the value it decodes to plus its layout, so that
 decoding undoes encoding and unequal texts may decode alike. Bytes that are
 no JSON are opaque.
 */
module Documents {
  import opened Prelude
  import opened CycleIds

  datatype Json =
    | Null
    | Bool(b: bool)
    | Int(i: int)
    | Float(r: real)
    | Str(s: string)
    | Arr(items: seq<Json>)
    | Dict(fields: map<string, Json>)

  datatype Bytes = Opaque(tag: nat) | Text(value: Json, layout: nat)

  /** `json.loads` */
  function Decode(b: Bytes): Option<Json> {
    match b
    case Opaque(_) => None
    case Text(value, _) => Some(value)
  }

  /** `json.dumps(..., indent=2).encode()` */
  function Encode(value: Json): Bytes {
    Text(value, 0)
  }

  const POINTER_NAME := "current.json"
  const META_NAME := "meta.json"
  const POINTER_SCHEMA_VERSION := 1

  /** A name that is one path segment: no separators, not `.` or `..`, not empty. */
  predicate SimpleName(name: string) {
    name != "" && '/' !in name && '\\' !in name && name != "." && name != ".."
  }

  // --------------------------------------------------------------- pointer

  /** A validated `current.json`: every object path is fixed by id and name. */
  datatype PointerDoc = PointerDoc(cycleId: string, generatedAt: string, names: set<string>)

  function ObjectPath(id: string, name: string): string {
    "cycles/" + id + "/" + name
  }

  function ObjectsJson(id: string, names: set<string>): Json {
    Dict(map name | name in names :: Str(ObjectPath(id, name)))
  }

  function PointerJson(id: string, generatedAt: string, names: set<string>): Json {
    Dict(map[
      "schema_version" := Int(POINTER_SCHEMA_VERSION),
      "cycle_id" := Str(id),
      "generated_at" := Str(generatedAt),
      "objects" := ObjectsJson(id, names)
    ])
  }

  function PointerBytes(id: string, generatedAt: string, names: set<string>): Bytes {
    Encode(PointerJson(id, generatedAt, names))
  }

  /** `validate_pointer_document`, branch by branch; None is any refusal. */
  function ValidatePointer(j: Json): Option<PointerDoc> {
    if !j.Dict? then None
    else if "schema_version" !in j.fields || "cycle_id" !in j.fields
            || "generated_at" !in j.fields || "objects" !in j.fields then None
    else if j.fields["schema_version"] != Int(POINTER_SCHEMA_VERSION) then None
    else
      var id, generatedAt := j.fields["cycle_id"], j.fields["generated_at"];
      if !id.Str? || !generatedAt.Str? || !ValidCycleId(id.s, generatedAt.s) then None
      else
        var objects := j.fields["objects"];
        if !objects.Dict? || objects.fields == map[] then None
        else if exists name :: name in objects.fields
                               && (!SimpleName(name) || objects.fields[name] != Str(ObjectPath(id.s, name))) then None
        else Some(PointerDoc(id.s, generatedAt.s, objects.fields.Keys))
  }

  function DecodePointer(b: Bytes): Option<PointerDoc> {
    match Decode(b)
    case None => None
    case Some(j) => ValidatePointer(j)
  }

  /** The four required fields are the writer's; any others are ignored. */
  ghost predicate CarriesPointer(j: Json, d: PointerDoc) {
    && j.Dict?
    && Lookup(j.fields, "schema_version") == Some(Int(POINTER_SCHEMA_VERSION))
    && Lookup(j.fields, "cycle_id") == Some(Str(d.cycleId))
    && Lookup(j.fields, "generated_at") == Some(Str(d.generatedAt))
    && Lookup(j.fields, "objects") == Some(ObjectsJson(d.cycleId, d.names))
  }

  ghost predicate WellFormedPointer(d: PointerDoc) {
    && ValidCycleId(d.cycleId, d.generatedAt)
    && d.names != {}
    && forall name :: name in d.names ==> SimpleName(name)
  }

  /**
   The reader accepts a document exactly when its required fields are the ones
   the writer would have produced for some well-formed cycle, and it reads
   that cycle back.
   */
  lemma ReaderAcceptsExactlyTheWriter(j: Json, d: PointerDoc)
    ensures ValidatePointer(j) == Some(d) <==> WellFormedPointer(d) && CarriesPointer(j, d)
  {
    if ValidatePointer(j) == Some(d) {
      assert j.fields["objects"].fields == ObjectsJson(d.cycleId, d.names).fields;
      var name :| name in j.fields["objects"].fields;
      assert name in d.names;
    }
    if WellFormedPointer(d) && CarriesPointer(j, d) {
      assert ObjectsJson(d.cycleId, d.names).fields.Keys == d.names;
    }
  }

  /** Round trip of the commit record. */
  lemma PointerRoundTrip(id: string, generatedAt: string, names: set<string>)
    requires WellFormedPointer(PointerDoc(id, generatedAt, names))
    ensures DecodePointer(PointerBytes(id, generatedAt, names)) == Some(PointerDoc(id, generatedAt, names))
  {
    ReaderAcceptsExactlyTheWriter(PointerJson(id, generatedAt, names), PointerDoc(id, generatedAt, names));
  }

  // ------------------------------------------------------------------ meta

  /** A staged `meta.json` that echoes the pointer's identity. */
  predicate MetaMatches(b: Bytes, id: string, generatedAt: string) {
    match Decode(b)
    case None => false
    case Some(j) =>
      && j.Dict?
      && Lookup(j.fields, "cycle_id") == Some(Str(id))
      && Lookup(j.fields, "generated_at") == Some(Str(generatedAt))
  }

  /** `build_meta`: identity fields next to whatever else the cycle reports. */
  function BuildMeta(id: string, generatedAt: string, rest: map<string, Json>): (j: Json)
    ensures MetaMatches(Encode(j), id, generatedAt)
  {
    Dict(rest["cycle_id" := Str(id)]["generated_at" := Str(generatedAt)])
  }
}
