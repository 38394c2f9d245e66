/** The shape dispatch of the geometry engine: which identifier selects which
    builder, which options the builder receives, and what happens for the
    legacy `hypercube` and for identifiers the table does not know.

    The builders themselves (vertex generation, projection, welding, normals)
    are not part of this model: each is an opaque tag.  `None` stands for an
    argument left `undefined`, so that the JavaScript parameter defaults
    (`type = 'icosahedron'`, `options = {}`) apply to it and to nothing else. */
module GeometryDispatch {
  import opened Wrappers
  import opened JsValues

  /** The 25 imported builders. */
  datatype Builder =
    | QuantumManifold | CompoundQuantumManifold | Icosahedron | Sphere
    | CompoundSphere | CompoundFloatingCity | SimpleCompoundHypercube
    | CompoundHypercube | CompoundTesseract | HessianPolychoron | MegaTesseract
    | CompoundMegaTesseract | CompoundMegaTesseractNested
    | CompoundMegaTesseractExperimental | CompoundMegaTesseractAxisShift
    | Octahedron | Tetrahedron | MobiusSphere | Cell120 | CompoundCell120
    | Cell24 | CompoundCell24 | Cell16 | Cell600 | CompoundCell600

  /** An axis-aligned cube: edge length and translation. */
  datatype Box = Box(size: real, dx: real, dy: real, dz: real)

  /** What `createGeometry` returns. */
  datatype Geometry =
    | Built(builder: Builder, argument: Json)
    | MergedBoxes(boxes: seq<Box>, isCompound: bool, baseType: string, isHypercube: bool)
    | PlainIcosahedron
    | TypeError

  const DefaultShape := "icosahedron"

  /** The builders that read `options.quantummanifold` before the options. */
  predicate ReadsManifoldOptions(b: Builder) {
    b == QuantumManifold || b == CompoundQuantumManifold
  }

  /** The `case` labels of the switch, the legacy hypercube excepted. */
  const Identifiers: set<string> := {
    "quantummanifold", "compoundquantummanifold", "icosahedron", "sphere",
    "compoundsphere", "compoundfloatingcity", "simplecpdhypercube", "cube",
    "box", "hessianpolychoron", "cpdtesseract", "cpd-megatesseract",
    "cpd-megatesseract-2", "cpd-megatesseract-3", "cpd-megatesseract-4",
    "octahedron", "tetrahedron", "mobiussphere", "120cell", "compound120cell",
    "24cell", "compound24cell", "16cell", "600cell", "compound600cell"
  }

  /** The label whose case calls builder `b`: the inverse of `BuilderFor`. */
  function IdentifierOf(b: Builder): (id: string)
    ensures id in Identifiers
  {
    match b
    case QuantumManifold => "quantummanifold"
    case CompoundQuantumManifold => "compoundquantummanifold"
    case Icosahedron => "icosahedron"
    case Sphere => "sphere"
    case CompoundSphere => "compoundsphere"
    case CompoundFloatingCity => "compoundfloatingcity"
    case SimpleCompoundHypercube => "simplecpdhypercube"
    case CompoundHypercube => "cube"
    case CompoundTesseract => "box"
    case HessianPolychoron => "hessianpolychoron"
    case MegaTesseract => "cpdtesseract"
    case CompoundMegaTesseract => "cpd-megatesseract"
    case CompoundMegaTesseractNested => "cpd-megatesseract-2"
    case CompoundMegaTesseractExperimental => "cpd-megatesseract-3"
    case CompoundMegaTesseractAxisShift => "cpd-megatesseract-4"
    case Octahedron => "octahedron"
    case Tetrahedron => "tetrahedron"
    case MobiusSphere => "mobiussphere"
    case Cell120 => "120cell"
    case CompoundCell120 => "compound120cell"
    case Cell24 => "24cell"
    case CompoundCell24 => "compound24cell"
    case Cell16 => "16cell"
    case Cell600 => "600cell"
    case CompoundCell600 => "compound600cell"
  }

  /** The builder a `case` label selects, by exact, case-sensitive match. */
  function BuilderFor(id: string): (r: Option<Builder>)
    ensures r.Some? <==> id in Identifiers
  {
    match id
    case "quantummanifold" => Some(QuantumManifold)
    case "compoundquantummanifold" => Some(CompoundQuantumManifold)
    case "icosahedron" => Some(Icosahedron)
    case "sphere" => Some(Sphere)
    case "compoundsphere" => Some(CompoundSphere)
    case "compoundfloatingcity" => Some(CompoundFloatingCity)
    case "simplecpdhypercube" => Some(SimpleCompoundHypercube)
    case "cube" => Some(CompoundHypercube)
    case "box" => Some(CompoundTesseract)
    case "hessianpolychoron" => Some(HessianPolychoron)
    case "cpdtesseract" => Some(MegaTesseract)
    case "cpd-megatesseract" => Some(CompoundMegaTesseract)
    case "cpd-megatesseract-2" => Some(CompoundMegaTesseractNested)
    case "cpd-megatesseract-3" => Some(CompoundMegaTesseractExperimental)
    case "cpd-megatesseract-4" => Some(CompoundMegaTesseractAxisShift)
    case "octahedron" => Some(Octahedron)
    case "tetrahedron" => Some(Tetrahedron)
    case "mobiussphere" => Some(MobiusSphere)
    case "120cell" => Some(Cell120)
    case "compound120cell" => Some(CompoundCell120)
    case "24cell" => Some(Cell24)
    case "compound24cell" => Some(CompoundCell24)
    case "16cell" => Some(Cell16)
    case "600cell" => Some(Cell600)
    case "compound600cell" => Some(CompoundCell600)
    case _ => None
  }

  /** `options.quantummanifold || options`; reading a property of `null`
      throws, every other non-object has no such property. */
  function ManifoldArgument(options: Json): (r: Option<Json>)
    ensures r.None? <==> options == JNull
    ensures r.Some? && r.value != options ==>
      options.JObj? && "quantummanifold" in options.fields
      && r.value == options.fields["quantummanifold"] && Truthy(r.value)
  {
    match options
    case JNull => None
    case JObj(fields) => Some(OrElse(if "quantummanifold" in fields then Some(fields["quantummanifold"]) else None, options))
    case _ => Some(options)
  }

  /** The legacy concentric cubes: an outer cube of edge 1.5 and an inner
      cube of edge 0.75 lifted by 0.02, merged and tagged. */
  const LegacyHypercube: Geometry :=
    MergedBoxes([Box(1.5, 0.0, 0.0, 0.0), Box(0.75, 0.0, 0.02, 0.0)], true, "BoxGeometry", true)

  /** `createGeometry(type, options)`.  Only a string equal to a `case` label
      selects a case (`switch` compares with `===`); anything else, `null`
      included, reaches the default. */
  function CreateGeometry(shape: Option<Json>, options: Option<Json>): (g: Geometry)
    ensures shape.None? ==> g.Built? && g.builder == Icosahedron
    ensures g.Built? && !ReadsManifoldOptions(g.builder) ==> g.argument == options.GetOr(JObj(map[]))
    ensures g.TypeError? <==>
              shape.Some? && shape.value.JStr? && shape.value.s in {"quantummanifold", "compoundquantummanifold"}
              && options == Some(JNull)
    ensures shape.Some? && !shape.value.JStr? ==> g == PlainIcosahedron
    ensures g.MergedBoxes? <==> shape == Some(JStr("hypercube"))
  {
    var id := shape.GetOr(JStr(DefaultShape));
    var opts := options.GetOr(JObj(map[]));
    if !id.JStr? then PlainIcosahedron
    else if id.s == "hypercube" then LegacyHypercube
    else match BuilderFor(id.s)
      case None => PlainIcosahedron
      case Some(b) =>
        if ReadsManifoldOptions(b) then
          match ManifoldArgument(opts)
          case None => TypeError
          case Some(arg) => Built(b, arg)
        else Built(b, opts)
  }

  /** Each label selects exactly one builder and each builder is selected
      by exactly one label: `IdentifierOf` inverts `BuilderFor` both ways. */
  lemma SelectionRoundTrip(b: Builder, id: string)
    ensures BuilderFor(IdentifierOf(b)) == Some(b)
    ensures BuilderFor(id) == Some(b) ==> id == IdentifierOf(b)
  {
    if BuilderFor(id) == Some(b) {
      LabelOfSelected(id, b);
    }
  }

  /** Only the builder's own label selects it.  The case split goes by
      small groups of builders, in case-label order, to keep each proof small. */
  lemma LabelOfSelected(id: string, b: Builder)
    requires BuilderFor(id) == Some(b)
    ensures id == IdentifierOf(b)
  {
    if b in {QuantumManifold, CompoundQuantumManifold, Icosahedron, Sphere, CompoundSphere} {
      LabelOfSelected1(id, b);
    } else if b in {CompoundFloatingCity, SimpleCompoundHypercube, CompoundHypercube, CompoundTesseract, HessianPolychoron} {
      LabelOfSelected2(id, b);
    } else if b in {MegaTesseract, CompoundMegaTesseract, CompoundMegaTesseractNested} {
      LabelOfSelected3(id, b);
    } else if b in {CompoundMegaTesseractExperimental, CompoundMegaTesseractAxisShift} {
      LabelOfSelected4(id, b);
    } else if b in {Octahedron, Tetrahedron, MobiusSphere, Cell120, CompoundCell120} {
      LabelOfSelected5(id, b);
    } else {
      LabelOfSelected6(id, b);
    }
  }

  lemma LabelOfSelected1(id: string, b: Builder)
    requires b in {QuantumManifold, CompoundQuantumManifold, Icosahedron, Sphere, CompoundSphere}
    requires BuilderFor(id) == Some(b)
    ensures id == IdentifierOf(b)
  {
  }

  lemma LabelOfSelected2(id: string, b: Builder)
    requires b in {CompoundFloatingCity, SimpleCompoundHypercube, CompoundHypercube, CompoundTesseract, HessianPolychoron}
    requires BuilderFor(id) == Some(b)
    ensures id == IdentifierOf(b)
  {
  }

  lemma LabelOfSelected3(id: string, b: Builder)
    requires b in {MegaTesseract, CompoundMegaTesseract, CompoundMegaTesseractNested}
    requires BuilderFor(id) == Some(b)
    ensures id == IdentifierOf(b)
  {
  }

  lemma LabelOfSelected4(id: string, b: Builder)
    requires b in {CompoundMegaTesseractExperimental, CompoundMegaTesseractAxisShift}
    requires BuilderFor(id) == Some(b)
    ensures id == IdentifierOf(b)
  {
  }

  lemma LabelOfSelected5(id: string, b: Builder)
    requires b in {Octahedron, Tetrahedron, MobiusSphere, Cell120, CompoundCell120}
    requires BuilderFor(id) == Some(b)
    ensures id == IdentifierOf(b)
  {
  }

  lemma LabelOfSelected6(id: string, b: Builder)
    requires b in {Cell24, CompoundCell24, Cell16, Cell600, CompoundCell600}
    requires BuilderFor(id) == Some(b)
    ensures id == IdentifierOf(b)
  {
  }

  /** Every listed identifier builds with its own builder; the options reach
      it unchanged unless it is one of the two manifold builders. */
  lemma ListedSelectsItsBuilder(b: Builder, options: Option<Json>)
    requires !ReadsManifoldOptions(b)
    ensures CreateGeometry(Some(JStr(IdentifierOf(b))), options) == Built(b, options.GetOr(JObj(map[])))
  {
    SelectionRoundTrip(b, IdentifierOf(b));
  }

  /** The manifold builders take `options.quantummanifold` when it is truthy
      and the whole options otherwise. */
  lemma ManifoldOptionsSelection(id: string, fields: map<string, Json>)
    requires id == "quantummanifold" || id == "compoundquantummanifold"
    ensures var g := CreateGeometry(Some(JStr(id)), Some(JObj(fields)));
      && g.Built? && ReadsManifoldOptions(g.builder)
      && ("quantummanifold" in fields && Truthy(fields["quantummanifold"]) ==> g.argument == fields["quantummanifold"])
      && (!("quantummanifold" in fields && Truthy(fields["quantummanifold"])) ==> g.argument == JObj(fields))
  {
  }

  /** An identifier outside the table yields the plain icosahedron whatever
      the options, which is not what the `icosahedron` case builds. */
  lemma UnknownIgnoresOptions(id: string, o1: Option<Json>, o2: Option<Json>)
    requires id !in Identifiers && id != "hypercube"
    ensures CreateGeometry(Some(JStr(id)), o1) == PlainIcosahedron
    ensures CreateGeometry(Some(JStr(id)), o1) == CreateGeometry(Some(JStr(id)), o2)
    ensures CreateGeometry(Some(JStr(id)), o1) != CreateGeometry(Some(JStr(DefaultShape)), o2)
  {
  }

  /** Leaving the shape out is the same call as asking for `icosahedron`. */
  lemma DefaultIsIcosahedron(options: Option<Json>)
    ensures CreateGeometry(None, options) == CreateGeometry(Some(JStr(DefaultShape)), options)
  {
  }

  /** Matching is case-sensitive: the upper-cased default is unknown. */
  lemma CaseSensitive(options: Option<Json>)
    ensures CreateGeometry(Some(JStr("ICOSAHEDRON")), options) == PlainIcosahedron
    ensures CreateGeometry(Some(JStr("Cube")), options) == PlainIcosahedron
  {
  }

  /** The three hypercube-like identifiers select three different builders;
      only `hypercube` builds the two merged boxes: edges 1.5 and 0.75, the
      inner one lifted by 0.02. */
  lemma HypercubeFamily(options: Option<Json>)
    ensures CreateGeometry(Some(JStr("cube")), options).builder == CompoundHypercube
    ensures CreateGeometry(Some(JStr("box")), options).builder == CompoundTesseract
    ensures CreateGeometry(Some(JStr("simplecpdhypercube")), options).builder == SimpleCompoundHypercube
    ensures var g := CreateGeometry(Some(JStr("hypercube")), options);
      g.MergedBoxes? && g.boxes == [Box(1.5, 0.0, 0.0, 0.0), Box(0.75, 0.0, 0.02, 0.0)]
      && g.isCompound && g.baseType == "BoxGeometry" && g.isHypercube
  {
  }
}
