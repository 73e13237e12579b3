/**
 * Runtime type metadata as plain data. A type is described by the
 * properties and fields that reflection reports for its declared and
 * inherited member surface, each with the attributes the contract resolver
 * looks at: visibility, instance or static scope, and whether it carries
 * CompilerGeneratedAttribute. A property also knows its declaring type,
 * through which its accessor methods are found.
 */
module Reflection {
  import Enumerable

  datatype Visibility = Public | Protected | Internal | Private

  /** A method as GetMethods reports it; accessors are named "get_X" and "set_X". */
  datatype MethodInfo = MethodInfo(name: string, visibility: Visibility, isStatic: bool)

  /** The declaring type of a member, with every method reflection knows of on it. */
  datatype TypeHandle = TypeHandle(name: string, methods: seq<MethodInfo>)

  /**
   * A property. Overloaded indexers share the name "Item" and differ only
   * in the types of their index parameters, which are therefore part of
   * the property's identity.
   */
  datatype PropertyInfo = PropertyInfo(
    name: string,
    declaringType: TypeHandle,
    indexParameters: seq<string>,
    visibility: Visibility,
    isStatic: bool,
    compilerGenerated: bool)

  datatype FieldInfo = FieldInfo(
    name: string,
    declaringType: TypeHandle,
    visibility: Visibility,
    isStatic: bool,
    compilerGenerated: bool)

  /** MemberInfo, restricted to the two kinds the serializer ever handles. */
  datatype Member = Prop(prop: PropertyInfo) | Fld(field: FieldInfo) {
    /** GetCustomAttribute<CompilerGeneratedAttribute>() != null */
    predicate IsCompilerGenerated() {
      match this
      case Prop(p) => p.compilerGenerated
      case Fld(f) => f.compilerGenerated
    }
  }

  /** The type being serialised. */
  datatype TypeInfo = TypeInfo(name: string, properties: seq<PropertyInfo>, fields: seq<FieldInfo>)

  /** The BindingFlags bits that select members by scope and visibility. */
  datatype BindingFlags = BindingFlags(Instance: bool, Static: bool, Public: bool, NonPublic: bool) {
    /** Whether a member of this scope and visibility is selected by these flags. */
    predicate Binds(isStatic: bool, visibility: Visibility) {
      (if isStatic then Static else Instance) &&
      (if visibility == Visibility.Public then Public else NonPublic)
    }
  }

  /** Type.GetProperties(flags) */
  function GetProperties(t: TypeInfo, flags: BindingFlags): (r: seq<PropertyInfo>)
    ensures forall p :: p in r <==> p in t.properties && flags.Binds(p.isStatic, p.visibility)
    ensures Enumerable.NoDuplicates(t.properties) ==> Enumerable.NoDuplicates(r)
  {
    Enumerable.Where(t.properties, (p: PropertyInfo) => flags.Binds(p.isStatic, p.visibility))
  }

  /** Type.GetFields(flags) */
  function GetFields(t: TypeInfo, flags: BindingFlags): (r: seq<FieldInfo>)
    ensures forall f :: f in r <==> f in t.fields && flags.Binds(f.isStatic, f.visibility)
    ensures Enumerable.NoDuplicates(t.fields) ==> Enumerable.NoDuplicates(r)
  {
    Enumerable.Where(t.fields, (f: FieldInfo) => flags.Binds(f.isStatic, f.visibility))
  }

  /** Type.GetMethods(flags) on a declaring type. */
  function GetMethods(t: TypeHandle, flags: BindingFlags): (r: seq<MethodInfo>)
    ensures forall m :: m in r <==> m in t.methods && flags.Binds(m.isStatic, m.visibility)
  {
    Enumerable.Where(t.methods, (m: MethodInfo) => flags.Binds(m.isStatic, m.visibility))
  }
}
