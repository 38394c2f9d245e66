/** The Scene document: its name and description limits, the configuration
    block with defaults and [min, max] bounds, and the pre-save hook that
    stamps `updatedAt`.

    Mongoose behaviour modelled here: the `trim` setters, defaults for keys
    left undefined, strict mode (configuration keys outside the schema are
    dropped), and the `required`, `maxlength`, `min` and `max` validators,
    which skip `null`.  Type casting (a numeric string stored into a Number
    path, say) is not modelled: a value must already have the declared type. */
module SceneSchema {
  import opened Wrappers
  import opened Strings
  import opened JsValues

  datatype Scene = Scene(
    id: string,
    name: string,
    description: string,
    userId: string,
    config: map<string, Json>,
    createdAt: int,
    updatedAt: int)

  datatype Bounds = Bounds(min: real, max: real)

  /** One configuration path: its type, default and optional bounds. */
  datatype ConfigField =
    | NumberField(numberDefault: real, bounds: Option<Bounds>)
    | StringField(stringDefault: string)

  const NameMaxLength := 100
  const DescriptionMaxLength := 500

  /** The `config` block of the schema, path by path. */
  const ConfigSchema: map<string, ConfigField> := map[
    "scale" := NumberField(1.0, Some(Bounds(0.1, 5.0))),
    "metalness" := NumberField(0.5, Some(Bounds(0.0, 1.0))),
    "emissiveIntensity" := NumberField(0.0, Some(Bounds(0.0, 5.0))),
    "baseColor" := StringField("#ff00ff"),
    "wireframeIntensity" := NumberField(50.0, Some(Bounds(0.0, 100.0))),
    "hyperframeColor" := StringField("#ff4500"),
    "hyperframeLineColor" := StringField("#00ff00"),
    "cameraView" := StringField("free"),
    "environment" := StringField("nebula"),
    "environmentHue" := NumberField(0.0, Some(Bounds(0.0, 360.0))),
    "objectCount" := NumberField(1.0, Some(Bounds(1.0, 24.0))),
    "animationStyle" := StringField("rotate"),
    "objectType" := StringField("icosahedron"),
    "objectSpeed" := NumberField(1.0, Some(Bounds(0.1, 5.0))),
    "orbSpeed" := NumberField(1.0, Some(Bounds(0.1, 5.0))),
    "ambientLightColor" := StringField("#ffffff"),
    "ambientLightIntensity" := NumberField(0.5, None),
    "directionalLightColor" := StringField("#ffffff"),
    "directionalLightIntensity" := NumberField(1.0, None),
    "directionalLightX" := NumberField(10.0, None),
    "directionalLightY" := NumberField(10.0, None),
    "directionalLightZ" := NumberField(5.0, None)
  ]

  function DefaultValue(f: ConfigField): Json {
    match f
    case NumberField(d, _) => JNum(d)
    case StringField(d) => JStr(d)
  }

  /** What the validators of one path accept: `null`, or a value of the
      declared type that lies within the bounds when there are any. */
  predicate ValidValue(f: ConfigField, v: Json) {
    match v
    case JNull => true
    case JNum(x) => f.NumberField? && (f.bounds.Some? ==> f.bounds.value.min <= x <= f.bounds.value.max)
    case JStr(_) => f.StringField?
    case _ => false
  }

  /** Every schema path that is present holds an acceptable value. */
  predicate ValidConfig(cfg: map<string, Json>) {
    forall k :: k in cfg && k in ConfigSchema ==> ValidValue(ConfigSchema[k], cfg[k])
  }

  /** Strict mode: only the paths the schema declares are kept. */
  function StrictConfig(cfg: map<string, Json>): (r: map<string, Json>)
    ensures r.Keys == cfg.Keys * ConfigSchema.Keys
    ensures forall k :: k in r ==> r[k] == cfg[k]
  {
    map k | k in cfg && k in ConfigSchema :: cfg[k]
  }

  /** Every schema path left undefined takes its default; given values stay. */
  function WithDefaults(cfg: map<string, Json>): (r: map<string, Json>)
    ensures r.Keys == cfg.Keys + ConfigSchema.Keys
    ensures forall k :: k in cfg ==> r[k] == cfg[k]
    ensures forall k :: k in ConfigSchema && k !in cfg ==> r[k] == DefaultValue(ConfigSchema[k])
  {
    map k | k in cfg.Keys + ConfigSchema.Keys :: if k in cfg then cfg[k] else DefaultValue(ConfigSchema[k])
  }

  /** Every default lies within the bounds of its own path, so a scene
      created with an empty configuration passes validation. */
  lemma {:induction false} DefaultsWithinBounds()
    ensures forall k :: k in ConfigSchema ==> ValidValue(ConfigSchema[k], DefaultValue(ConfigSchema[k]))
    ensures ValidConfig(WithDefaults(map[]))
  {
    forall k | k in ConfigSchema
      ensures ValidValue(ConfigSchema[k], DefaultValue(ConfigSchema[k]))
    {
    }
  }

  /** `new Scene({...})`: the `trim` setters on name and description, the
      empty-string default of description, defaults and strict mode on the
      configuration; both timestamps default to `now`. */
  function NewScene(id: string, name: string, description: Option<string>, userId: string,
                    config: map<string, Json>, now: int): (s: Scene)
    ensures s.name == JsTrim(name)
    ensures description.None? ==> s.description == []
    ensures description.Some? ==> s.description == JsTrim(description.value)
    ensures s.config.Keys == ConfigSchema.Keys
    ensures forall k :: k in config && k in ConfigSchema ==> s.config[k] == config[k]
    ensures forall k :: k in ConfigSchema && k !in config ==> s.config[k] == DefaultValue(ConfigSchema[k])
  {
    Scene(id, JsTrim(name), JsTrim(description.GetOr([])), userId,
          WithDefaults(StrictConfig(config)), now, now)
  }

  /** The document validators: name present (non-empty once trimmed) and at
      most 100 UTF-16 units, description at most 500, configuration valid. */
  predicate ValidScene(s: Scene) {
    && s.name != []
    && Utf16Length(s.name) <= NameMaxLength
    && Utf16Length(s.description) <= DescriptionMaxLength
    && ValidConfig(s.config)
  }

  /** The pre-save hook: `updatedAt` becomes `now`. */
  function PreSave(s: Scene, now: int): (r: Scene)
    ensures r.updatedAt == now
    ensures r.(updatedAt := s.updatedAt) == s
  {
    s.(updatedAt := now)
  }

  /** `scene.save()`: validation, then the pre-save hook.  `None` is the
      validation error the route reports as a server error. */
  function Save(s: Scene, now: int): (r: Option<Scene>)
    ensures r.Some? <==> ValidScene(s)
    ensures r.Some? ==> ValidScene(r.value) && r.value.updatedAt == now
    ensures r.Some? ==> r.value.(updatedAt := s.updatedAt) == s
  {
    if ValidScene(s) then Some(PreSave(s, now)) else None
  }
}
