/**
 * The PrivateSetter contract resolver: which storage slots of a type take
 * part in serialisation, and whether each slot may be read while encoding
 * and written while decoding. It widens the choices of the default
 * resolver, whose flags for a slot are taken here as an input.
 */
module PrivateSetter {
  import opened Enumerable
  import opened Reflection

  /** Instance members, public and non-public alike. */
  const MemberFlags := BindingFlags(Instance := true, Static := false, Public := true, NonPublic := true)

  /** The declaring type of `p` has an instance method named "set_" + name, of any visibility. */
  function HasSetter(p: PropertyInfo): (r: bool)
    ensures r <==> exists m :: m in p.declaringType.methods && !m.isStatic && m.name == "set_" + p.name
  {
    Any(GetMethods(p.declaringType, MemberFlags), (m: MethodInfo) => m.name == "set_" + p.name)
  }

  /** The declaring type of `p` has an instance method named "get_" + name, of any visibility. */
  function HasGetter(p: PropertyInfo): (r: bool)
    ensures r <==> exists m :: m in p.declaringType.methods && !m.isStatic && m.name == "get_" + p.name
  {
    Any(GetMethods(p.declaringType, MemberFlags), (m: MethodInfo) => m.name == "get_" + p.name)
  }

  /**
   * The policy stated directly: every instance property, whatever its
   * visibility or attributes, and every instance field that the compiler
   * did not generate.
   */
  predicate Serializable(t: TypeInfo, m: Member) {
    match m
    case Prop(p) => p in t.properties && !p.isStatic
    case Fld(f) => f in t.fields && !f.isStatic && !f.compilerGenerated
  }

  /** GetProperties(flags), cast to members. */
  function PropertyMembers(t: TypeInfo): (r: seq<Member>)
    ensures forall m :: m in r <==> m.Prop? && Serializable(t, m)
  {
    var ps := GetProperties(t, MemberFlags);
    var r := Select(ps, (p: PropertyInfo) => Prop(p));
    assert forall m :: m in r ==> m.Prop? && m.prop in ps by {
      forall m | m in r ensures m.Prop? && m.prop in ps {
        var i :| 0 <= i < |r| && r[i] == m;
        assert r[i] == Prop(ps[i]);
      }
    }
    assert forall p :: p in ps ==> Prop(p) in r by {
      forall p | p in ps ensures Prop(p) in r {
        var i :| 0 <= i < |ps| && ps[i] == p;
        assert r[i] == Prop(p);
      }
    }
    r
  }

  /** GetFields(flags), cast to members, without those carrying CompilerGeneratedAttribute. */
  function FieldMembers(t: TypeInfo): (r: seq<Member>)
    ensures forall m :: m in r <==> m.Fld? && Serializable(t, m)
  {
    var fs := GetFields(t, MemberFlags);
    var all := Select(fs, (f: FieldInfo) => Fld(f));
    assert forall m :: m in all ==> m.Fld? && m.field in fs by {
      forall m | m in all ensures m.Fld? && m.field in fs {
        var i :| 0 <= i < |all| && all[i] == m;
        assert all[i] == Fld(fs[i]);
      }
    }
    assert forall f :: f in fs ==> Fld(f) in all by {
      forall f | f in fs ensures Fld(f) in all {
        var i :| 0 <= i < |fs| && fs[i] == f;
        assert all[i] == Fld(f);
      }
    }
    Where(all, (m: Member) => !m.IsCompilerGenerated())
  }

  /** In a Union of properties with fields, no field comes before a property. */
  lemma PropertiesBeforeFields(props: seq<Member>, fields: seq<Member>)
    requires forall m :: m in props ==> m.Prop?
    requires forall m :: m in fields ==> m.Fld?
    ensures forall i, j :: 0 <= i < j < |Union(props, fields)| && Union(props, fields)[j].Prop? ==>
              Union(props, fields)[i].Prop?
  {
    var r := Union(props, fields);
    var front, back := DistinctFrom(props, {}), DistinctFrom(fields, Elements(props));
    assert r == front + back;
    assert forall k :: 0 <= k < |front| ==> r[k] == front[k] && r[k] in props;
    assert forall k :: |front| <= k < |r| ==> r[k] == back[k - |front|] && r[k] in fields;
  }

  /** Only a type with neither instance properties nor eligible fields has no members. */
  lemma EmptyExactlyWhenNothingEligible(t: TypeInfo, r: seq<Member>)
    requires forall m :: m in r <==> Serializable(t, m)
    ensures r == [] <==>
      (forall p :: p in t.properties ==> p.isStatic) &&
      (forall f :: f in t.fields ==> f.isStatic || f.compilerGenerated)
  {
    if r == [] {
      forall p | p in t.properties ensures p.isStatic {
        assert !Serializable(t, Prop(p));
      }
      forall f | f in t.fields ensures f.isStatic || f.compilerGenerated {
        assert !Serializable(t, Fld(f));
      }
    } else {
      assert Serializable(t, r[0]);
    }
  }

  /**
   * GetSerializableMembers: the properties, then the fields, with
   * duplicates removed. Exactly the members of the policy, each once, no
   * field before a property, and nothing at all for a type without
   * instance properties and without programmer-declared instance fields.
   */
  function GetSerializableMembers(t: TypeInfo): (r: seq<Member>)
    ensures forall m :: m in r <==> Serializable(t, m)
    ensures NoDuplicates(r)
    ensures forall i, j :: 0 <= i < j < |r| && r[j].Prop? ==> r[i].Prop?
    ensures r == [] <==>
      (forall p :: p in t.properties ==> p.isStatic) &&
      (forall f :: f in t.fields ==> f.isStatic || f.compilerGenerated)
  {
    var props, fields := PropertyMembers(t), FieldMembers(t);
    PropertiesBeforeFields(props, fields);
    var r := Union(props, fields);
    EmptyExactlyWhenNothingEligible(t, r);
    r
  }

  /**
   * When reflection reports each member once (overloaded indexers are
   * told apart by their index parameters), and since a property is never
   * a field, the Union drops nothing: the result is the instance
   * properties in reflection order followed by the eligible fields in
   * reflection order.
   */
  lemma MembersInReflectionOrder(t: TypeInfo)
    requires NoDuplicates(t.properties) && NoDuplicates(t.fields)
    ensures GetSerializableMembers(t) == PropertyMembers(t) + FieldMembers(t)
  {
  }

  /**
   * Overloaded indexers of one type are distinct members, so the Union
   * keeps every one of them.
   */
  lemma OverloadedIndexersAllListed(t: TypeInfo, p: PropertyInfo, q: PropertyInfo)
    requires p in t.properties && q in t.properties && !p.isStatic && !q.isStatic
    requires p.name == q.name && p.declaringType == q.declaringType && p.indexParameters != q.indexParameters
    ensures Prop(p) in GetSerializableMembers(t) && Prop(q) in GetSerializableMembers(t)
    ensures Prop(p) != Prop(q)
  {
  }

  /** The readable/writable flags of one slot. */
  datatype Access = Access(readable: bool, writable: bool)

  /**
   * The flags CreateProperty leaves on a slot whose default flags were
   * `base`. Writability only grows; a property that was not writable
   * becomes writable exactly when a setter exists; a field ends readable
   * and writable; a property's readability is never touched.
   */
  function Resolve(member: Member, base: Access): (r: Access)
    ensures base.writable ==> r.writable
    ensures member.Fld? ==> r.readable && r.writable
    ensures member.Prop? ==> r.readable == base.readable
    ensures member.Prop? && !base.writable ==> (r.writable <==> HasSetter(member.prop))
  {
    match member
    case Prop(p) => Access(base.readable, base.writable || HasSetter(p))
    case Fld(_) => Access(true, true)
  }

  /**
   * A property the default resolver left unreadable stays unreadable even
   * when its declaring type has a getter: HasGetter is never consulted.
   */
  lemma ReadableIgnoresGetter(p: PropertyInfo, base: Access)
    requires !base.readable && HasGetter(p)
    ensures !Resolve(Prop(p), base).readable
  {
  }

  /**
   * A read-only property whose declaring type hides its setter (any
   * non-public visibility) is still made writable, so that decoding can
   * repopulate it.
   */
  lemma HiddenSetterIsUsed(p: PropertyInfo, setter: MethodInfo, base: Access)
    requires setter in p.declaringType.methods && !setter.isStatic && setter.name == "set_" + p.name
    ensures Resolve(Prop(p), base).writable
  {
  }

  /** The slot object the default resolver built, which CreateProperty adjusts. */
  class JsonProperty {
    var propertyName: string
    var readable: bool
    var writable: bool

    constructor (propertyName: string, readable: bool, writable: bool)
      ensures this.propertyName == propertyName
      ensures Flags() == Access(readable, writable)
    {
      this.propertyName := propertyName;
      this.readable := readable;
      this.writable := writable;
    }

    function Flags(): Access
      reads this
    {
      Access(readable, writable)
    }
  }

  /**
   * CreateProperty: `prop` is the slot base.CreateProperty built for
   * `member`; its flags are adjusted in place and the same object is
   * returned. Nothing but the two flags changes.
   */
  method CreateProperty(member: Member, prop: JsonProperty) returns (r: JsonProperty)
    modifies prop`readable, prop`writable
    ensures r == prop
    ensures prop.Flags() == Resolve(member, old(prop.Flags()))
  {
    if !prop.writable {
      match member {
        case Prop(p) => prop.writable := HasSetter(p);
        case Fld(_) => prop.writable := true;
      }
    }
    if !prop.readable {
      if member.Fld? {
        prop.readable := true;
      }
    }
    r := prop;
  }
}
