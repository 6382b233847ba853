/**
 Ownership manifests of a managed vault namespace, above the JSON text layer.

 SHA-256 is symbolic: `ByteDigest(content)` is the spelling `sha256:<64 lower-case hex>` of the digest
 of `content`, so equal digests mean equal bytes. Whatever is not a well-formed identity is `Plain`.
 */
module Manifests {
  import opened Wrappers

  type Bytes = seq<bv8>
  type U64 = n: int | 0 <= n < 0x1_0000_0000_0000_0000

  datatype Text = Plain(text: string) | ByteDigest(content: Bytes) | SemanticDigest(identity: nat)

  /** A parsed JSON value; `JOther` is every value the manifest code never accepts. */
  datatype Json = JText(text: Text) | JNumber(number: int) | JObject(fields: map<string, Json>) | JOther

  /** The JSON library: `parse` reads back whatever `render` wrote, also behind a trailing newline. */
  datatype JsonCodec = JsonCodec(parse: Bytes -> Option<Json>, render: Json -> Bytes) {
    ghost predicate Lawful() {
      forall j :: parse(render(j) + [NEWLINE]) == Some(j)
    }
  }

  const NEWLINE: bv8 := 0x0A
  const MANIFEST_FILE := ".sim-index-vault-manifest.json"
  const SCHEMA_V1 := Plain("sim.index-vault-manifest.v1")
  const SCHEMA_V3 := Plain("sim.index-vault-manifest.v3")
  const CODEC_ID := Plain("codec/index-vault")
  const EMPTY := Plain("")

  datatype ManifestError =
    | Unparsable
    | NotAnObject
    | RejectedSchema(schema: Text)
    | UnknownField
    | BadField(name: string)
    | EmptyField(name: string)
    | BadIdentity(name: string)
    | ForeignCodec

  datatype Manifest = Manifest(
    namespace: Text,
    profile: Text,
    granularity: Text,
    indexDigest: Text,
    codec: Text,
    projectionDigest: Text,
    bundleRoot: Text,
    coverage: map<string, U64>,
    artifacts: map<string, Text>)

  datatype LegacyManifest = LegacyManifest(
    namespace: Text,
    profile: Text,
    granularity: Text,
    indexDigest: Text,
    coverage: map<string, U64>,
    artifacts: map<string, Text>)

  // ---- field readers ----

  function StringField(json: map<string, Json>, name: string): Result<Text, ManifestError> {
    if name in json && json[name].JText? then Success(json[name].text) else Failure(BadField(name))
  }

  function ObjectField(json: map<string, Json>, name: string): Result<map<string, Json>, ManifestError> {
    if name in json && json[name].JObject? then Success(json[name].fields) else Failure(BadField(name))
  }

  function StringMapField(json: map<string, Json>, name: string): Result<map<string, Text>, ManifestError> {
    var fields :- ObjectField(json, name);
    if forall k | k in fields :: fields[k].JText? then
      Success(map k | k in fields :: fields[k].text)
    else
      Failure(BadField(name))
  }

  function NumberMapField(json: map<string, Json>, name: string): Result<map<string, U64>, ManifestError> {
    var fields :- ObjectField(json, name);
    if forall k | k in fields :: fields[k].JNumber? && 0 <= fields[k].number < 0x1_0000_0000_0000_0000 then
      Success(map k | k in fields :: fields[k].number as U64)
    else
      Failure(BadField(name))
  }

  // ---- shape ----

  function ValidateArtifacts(artifacts: map<string, Text>): Check<ManifestError> {
    if "" in artifacts then Fail(EmptyField("artifact path"))
    else if exists path | path in artifacts :: !artifacts[path].ByteDigest? then Fail(BadIdentity("artifacts"))
    else Pass
  }

  function ValidateShape(m: Manifest): Check<ManifestError> {
    if m.namespace == EMPTY then Fail(EmptyField("namespace"))
    else if m.profile == EMPTY then Fail(EmptyField("profile"))
    else if m.granularity == EMPTY then Fail(EmptyField("granularity"))
    else if !m.indexDigest.ByteDigest? then Fail(BadIdentity("index_digest"))
    else if m.codec != CODEC_ID then Fail(ForeignCodec)
    else if !m.projectionDigest.SemanticDigest? then Fail(BadIdentity("projection_digest"))
    else if !m.bundleRoot.SemanticDigest? then Fail(BadIdentity("bundle_root"))
    else ValidateArtifacts(m.artifacts)
  }

  // ---- writing and reading the current schema ----

  const ALLOWED: set<string> := {"schema", "codec", "profile", "granularity", "index_digest",
    "projection_digest", "bundle_root", "namespace", "coverage", "artifacts"}

  /** The value written under each field name. */
  function Cell(m: Manifest, name: string): Json {
    if name == "schema" then JText(SCHEMA_V3)
    else if name == "codec" then JText(m.codec)
    else if name == "profile" then JText(m.profile)
    else if name == "granularity" then JText(m.granularity)
    else if name == "index_digest" then JText(m.indexDigest)
    else if name == "projection_digest" then JText(m.projectionDigest)
    else if name == "bundle_root" then JText(m.bundleRoot)
    else if name == "namespace" then JText(m.namespace)
    else if name == "coverage" then JObject(map k | k in m.coverage :: JNumber(m.coverage[k]))
    else JObject(map k | k in m.artifacts :: JText(m.artifacts[k]))
  }

  function Object(m: Manifest): map<string, Json> {
    map name | name in ALLOWED :: Cell(m, name)
  }

  function ToBytes(codec: JsonCodec, m: Manifest): Result<Bytes, ManifestError> {
    match ValidateShape(m)
    case Fail(e) => Failure(e)
    case Pass => Success(codec.render(JObject(Object(m))) + [NEWLINE])
  }

  function FromObject(json: map<string, Json>): Result<Manifest, ManifestError> {
    var schema :- StringField(json, "schema");
    if schema != SCHEMA_V3 then Failure(RejectedSchema(schema))
    else if !(json.Keys <= ALLOWED) then Failure(UnknownField)
    else
      var namespace :- StringField(json, "namespace");
      var profile :- StringField(json, "profile");
      var granularity :- StringField(json, "granularity");
      var indexDigest :- StringField(json, "index_digest");
      var codec :- StringField(json, "codec");
      var projectionDigest :- StringField(json, "projection_digest");
      var bundleRoot :- StringField(json, "bundle_root");
      var coverage :- NumberMapField(json, "coverage");
      var artifacts :- StringMapField(json, "artifacts");
      var m := Manifest(namespace, profile, granularity, indexDigest, codec, projectionDigest, bundleRoot,
                        coverage, artifacts);
      match ValidateShape(m)
      case Fail(e) => Failure(e)
      case Pass => Success(m)
  }

  function FromBytes(codec: JsonCodec, bytes: Bytes): Result<Manifest, ManifestError> {
    match codec.parse(bytes)
    case Some(JObject(fields)) => FromObject(fields)
    case Some(_) => Failure(NotAnObject)
    case None => Failure(Unparsable)
  }

  // ---- reading the retired first schema ----

  const LEGACY_ALLOWED: set<string> := {"schema", "namespace", "profile", "granularity", "index_digest",
    "coverage", "artifacts"}

  function FromLegacyObject(json: map<string, Json>): Result<LegacyManifest, ManifestError> {
    if !(json.Keys <= LEGACY_ALLOWED) then Failure(UnknownField)
    else
      var schema :- StringField(json, "schema");
      if schema != SCHEMA_V1 then Failure(RejectedSchema(schema))
      else
        var namespace :- StringField(json, "namespace");
        var profile :- StringField(json, "profile");
        var granularity :- StringField(json, "granularity");
        var indexDigest :- StringField(json, "index_digest");
        var coverage :- NumberMapField(json, "coverage");
        var artifacts :- StringMapField(json, "artifacts");
        if namespace == EMPTY then Failure(EmptyField("namespace"))
        else if profile == EMPTY then Failure(EmptyField("profile"))
        else if !indexDigest.ByteDigest? then Failure(BadIdentity("index_digest"))
        else
          match ValidateArtifacts(artifacts)
          case Fail(e) => Failure(e)
          case Pass =>
            Success(LegacyManifest(namespace, profile, granularity, indexDigest, coverage, artifacts))
  }

  function FromLegacyBytes(codec: JsonCodec, bytes: Bytes): Result<LegacyManifest, ManifestError> {
    match codec.parse(bytes)
    case Some(JObject(fields)) => FromLegacyObject(fields)
    case Some(_) => Failure(NotAnObject)
    case None => Failure(Unparsable)
  }

  // ---- what the reader and the writer promise each other ----

  lemma WriterIsRead(m: Manifest)
    requires ValidateShape(m).Pass?
    ensures FromObject(Object(m)) == Success(m)
  {
    hide NumberMapField, StringMapField;
    NumberMapIs(Object(m), "coverage", m.coverage);
    StringMapIs(Object(m), "artifacts", m.artifacts);
  }

  lemma NumberMapIs(json: map<string, Json>, name: string, numbers: map<string, U64>)
    ensures NumberMapField(json, name) == Success(numbers) <==>
            name in json && json[name] == JObject(map k | k in numbers :: JNumber(numbers[k]))
  {
    var written := map k | k in numbers :: JNumber(numbers[k]);
    assert (map k | k in written :: written[k].number as U64) == numbers;
    if NumberMapField(json, name) == Success(numbers) {
      assert json[name].fields == written;
    }
  }

  lemma StringMapIs(json: map<string, Json>, name: string, texts: map<string, Text>)
    ensures StringMapField(json, name) == Success(texts) <==>
            name in json && json[name] == JObject(map k | k in texts :: JText(texts[k]))
  {
    var written := map k | k in texts :: JText(texts[k]);
    assert (map k | k in written :: written[k].text) == texts;
    if StringMapField(json, name) == Success(texts) {
      assert json[name].fields == written;
    }
  }

  lemma ReadIsWritten(json: map<string, Json>, m: Manifest)
    requires FromObject(json) == Success(m)
    ensures ValidateShape(m).Pass? && json == Object(m)
  {
    hide NumberMapField, StringMapField, ValidateShape;
    NumberMapIs(json, "coverage", m.coverage);
    StringMapIs(json, "artifacts", m.artifacts);
    forall name | name in ALLOWED ensures name in json && json[name] == Cell(m, name) {
    }
  }

  /** The reader accepts exactly the objects the writer makes of well-shaped manifests. */
  lemma ReaderInvertsWriter(json: map<string, Json>, m: Manifest)
    ensures FromObject(json) == Success(m) <==> ValidateShape(m).Pass? && json == Object(m)
  {
    if FromObject(json) == Success(m) {
      ReadIsWritten(json, m);
    } else if ValidateShape(m).Pass? {
      WriterIsRead(m);
    }
  }

  /** Round trip through bytes: every manifest that can be written is read back, and only those. */
  lemma RoundTrip(codec: JsonCodec, m: Manifest)
    requires codec.Lawful()
    ensures ToBytes(codec, m).Success? <==> ValidateShape(m).Pass?
    ensures ToBytes(codec, m).Success? ==> FromBytes(codec, ToBytes(codec, m).value) == Success(m)
  {
    ReaderInvertsWriter(Object(m), m);
  }

  /** No bytes are both a current and a legacy manifest. */
  lemma SchemasDisjoint(codec: JsonCodec, bytes: Bytes)
    ensures !(FromBytes(codec, bytes).Success? && FromLegacyBytes(codec, bytes).Success?)
  {
  }
}
