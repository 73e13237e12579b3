/**
 * A concrete type: Point { X: public get, public set; Y: public get,
 * private set }, both auto-properties, so the compiler adds one private
 * backing field per property and marks it CompilerGeneratedAttribute.
 */
module PointScenario {
  import opened Enumerable
  import opened Reflection
  import opened PrivateSetter

  const PointHandle := TypeHandle("Point", [
    MethodInfo("get_X", Public, false),
    MethodInfo("set_X", Public, false),
    MethodInfo("get_Y", Public, false),
    MethodInfo("set_Y", Private, false)])

  const X := PropertyInfo("X", PointHandle, [], Public, false, false)
  const Y := PropertyInfo("Y", PointHandle, [], Public, false, false)
  const XBacking := FieldInfo("<X>k__BackingField", PointHandle, Private, false, true)
  const YBacking := FieldInfo("<Y>k__BackingField", PointHandle, Private, false, true)

  const Point := TypeInfo("Point", [X, Y], [XBacking, YBacking])

  /**
   * Only the two properties are serialised (the backing fields do not
   * appear a second time), and Y, which the default resolver leaves
   * non-writable because its setter is private, is made writable.
   */
  lemma PointPolicy()
    ensures GetSerializableMembers(Point) == [Prop(X), Prop(Y)]
    ensures Resolve(Prop(Y), Access(true, false)) == Access(true, true)
  {
    PointMembers();
    PointSetter();
  }

  lemma PointMembers()
    ensures GetSerializableMembers(Point) == [Prop(X), Prop(Y)]
  {
    MembersInReflectionOrder(Point);
    PointProperties();
    PointFields();
  }

  lemma PointProperties()
    ensures PropertyMembers(Point) == [Prop(X), Prop(Y)]
  {
  }

  lemma PointFields()
    ensures FieldMembers(Point) == []
  {
    var fs := [XBacking, YBacking];
    assert fs[1..] == [YBacking] && fs[1..][1..] == [];
    assert GetFields(Point, MemberFlags) == fs;
    var ms := [Fld(XBacking), Fld(YBacking)];
    assert ms[1..] == [Fld(YBacking)] && ms[1..][1..] == [];
    assert Select(fs, (f: FieldInfo) => Fld(f)) == ms;
    assert Where(ms, (m: Member) => !m.IsCompilerGenerated()) == [];
  }

  lemma PointSetter()
    ensures Resolve(Prop(Y), Access(true, false)) == Access(true, true)
  {
  }
}
