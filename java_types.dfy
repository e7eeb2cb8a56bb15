/**
 * The few Java classes the operator machinery tells apart, standing in for `Class<?>`
 * values, together with boxing (`MethodType.wrap`) and assignability (`Class.isAssignableFrom`).
 */
module JavaTypes {

  /** The primitive types of the Java platform, `void` included. */
  datatype PrimitiveKind = Boolean | Byte | Char | Short | Int | Long | Float | Double | Void

  /**
   * A Java class. `Named` stands for every class not listed by its own constructor
   * (for example `io.airlift.slice.Slice`).
   */
  datatype JavaClass =
    | Primitive(kind: PrimitiveKind)   // boolean.class, int.class, long.class, ...
    | Boxed(kind: PrimitiveKind)       // java.lang.Boolean, java.lang.Integer, ...
    | BlockClass                       // io.prestosql.spi.block.Block
    | SessionClass                     // io.prestosql.spi.connector.ConnectorSession
    | ObjectClass                      // java.lang.Object
    | Named(name: string)

  /** `MethodType.wrap`: a primitive becomes its wrapper class, every other class is kept. */
  function Wrap(t: JavaClass): (w: JavaClass)
    ensures !w.Primitive?
    ensures t.Primitive? ==> w == Boxed(t.kind)
    ensures !t.Primitive? ==> w == t
  {
    if t.Primitive? then Boxed(t.kind) else t
  }

  /**
   * `p.isAssignableFrom(t)`: a value of class `t` may be passed where `p` is declared.
   * Primitives are assignable only from themselves; `Object` accepts every reference class.
   * Subclassing among other reference classes is not modelled.
   */
  predicate IsAssignableFrom(p: JavaClass, t: JavaClass)
    ensures IsAssignableFrom(p, t) && (p.Primitive? || t.Primitive?) ==> p == t
    ensures p == ObjectClass ==> (IsAssignableFrom(p, t) <==> !t.Primitive?)
    ensures p != ObjectClass ==> (IsAssignableFrom(p, t) <==> p == t)
  {
    p == t || (p == ObjectClass && !t.Primitive?)
  }

  lemma AssignableIsReflexive(t: JavaClass)
    ensures IsAssignableFrom(t, t)
  {
  }
}
