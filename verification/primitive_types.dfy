/** `PrimitiveType` of src/graphics/primitive_type.rs: the seven ways SFML assembles
    vertices, its C ordinal, and the fixed-arity `Primitive` the four unstrung kinds
    group vertices into. */
module PrimitiveTypes {
  import opened Ints

  datatype PrimitiveType =
    | Points
    | Lines
    | LineStrip
    | Triangles
    | TriangleStrip
    | TriangleFan
    | Quads

  /** The number of kinds, one past the largest ordinal. */
  const KIND_COUNT: nat := 7

  /** `to_csfml`: the kind reinterpreted as its `u32` discriminant, which for a
      field-less `repr(C)` enum is its position in the declaration. */
  function ToCsfml(t: PrimitiveType): (v: u32)
    ensures v < KIND_COUNT
  {
    match t
    case Points => 0
    case Lines => 1
    case LineStrip => 2
    case Triangles => 3
    case TriangleStrip => 4
    case TriangleFan => 5
    case Quads => 6
  }

  /** `From<sfPrimitiveType>`: the reverse reinterpretation. A value past the last
      discriminant is not a `PrimitiveType` at all (the transmute is undefined), so it
      is excluded. */
  function FromCsfml(v: u32): (t: PrimitiveType)
    requires v < KIND_COUNT
    ensures ToCsfml(t) == v
  {
    if v == 0 then Points
    else if v == 1 then Lines
    else if v == 2 then LineStrip
    else if v == 3 then Triangles
    else if v == 4 then TriangleStrip
    else if v == 5 then TriangleFan
    else Quads
  }

  /** The two reinterpretations are inverse to each other. */
  lemma CsfmlRoundTrip(t: PrimitiveType, v: u32)
    requires v < KIND_COUNT
    ensures FromCsfml(ToCsfml(t)) == t
    ensures ToCsfml(FromCsfml(v)) == v
  {
  }

  /** Distinct kinds have distinct ordinals. */
  lemma ToCsfmlInjective(s: PrimitiveType, t: PrimitiveType)
    ensures ToCsfml(s) == ToCsfml(t) <==> s == t
  {
    CsfmlRoundTrip(s, 0);
    CsfmlRoundTrip(t, 0);
  }

  /** The kinds `vertex_count` and `type` handle; the strips and the fan panic there. */
  predicate Supported(t: PrimitiveType) {
    t.Points? || t.Lines? || t.Triangles? || t.Quads?
  }

  /** `vertex_count`: how many vertices make one primitive. */
  function VertexCount(t: PrimitiveType): (n: nat)
    requires Supported(t)
    ensures 1 <= n <= 4
  {
    match t
    case Points => 1
    case Lines => 2
    case Triangles => 3
    case Quads => 4
  }

  /** The vertex the source's `Vertex::default()` builds. Positions and texture
      coordinates are floats, so the model keeps only the fact that it is the default
      one. */
  datatype Vertex = DefaultVertex

  datatype Primitive =
    | PointPrimitive(p0: Vertex)
    | LinePrimitive(l0: Vertex, l1: Vertex)
    | TrianglePrimitive(t0: Vertex, t1: Vertex, t2: Vertex)
    | QuadPrimitive(q0: Vertex, q1: Vertex, q2: Vertex, q3: Vertex)

  /** The vertices a primitive holds, in order. */
  function Vertices(p: Primitive): seq<Vertex> {
    match p
    case PointPrimitive(a) => [a]
    case LinePrimitive(a, b) => [a, b]
    case TrianglePrimitive(a, b, c) => [a, b, c]
    case QuadPrimitive(a, b, c, d) => [a, b, c, d]
  }

  /** `r#type`: a primitive of the kind's shape, filled with default vertices. */
  function Type(t: PrimitiveType): (p: Primitive)
    requires Supported(t)
    ensures |Vertices(p)| == VertexCount(t)
    ensures forall i :: 0 <= i < |Vertices(p)| ==> Vertices(p)[i] == DefaultVertex
  {
    match t
    case Points => PointPrimitive(DefaultVertex)
    case Lines => LinePrimitive(DefaultVertex, DefaultVertex)
    case Triangles => TrianglePrimitive(DefaultVertex, DefaultVertex, DefaultVertex)
    case Quads => QuadPrimitive(DefaultVertex, DefaultVertex, DefaultVertex, DefaultVertex)
  }

  /** The primitive `type` builds has exactly `vertex_count` vertices, and different
      supported kinds build different shapes. */
  lemma TypeMatchesVertexCount(t: PrimitiveType, u: PrimitiveType)
    requires Supported(t) && Supported(u)
    ensures |Vertices(Type(t))| == VertexCount(t)
    ensures Type(t) == Type(u) <==> t == u
  {
  }

  /** The counts the source lists: 1, 2, 3 and 4, and the unsupported kinds are the
      strips and the fan. */
  lemma VertexCountValues()
    ensures VertexCount(Points) == 1 && VertexCount(Lines) == 2
    ensures VertexCount(Triangles) == 3 && VertexCount(Quads) == 4
    ensures !Supported(LineStrip) && !Supported(TriangleStrip) && !Supported(TriangleFan)
  {
  }
}
