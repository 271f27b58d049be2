/** Converting a table of interface types to schema components, with and without a memo. */
module WitConverter {
  import opened Sets
  import opened Wrappers
  import opened Decimal

  //
  // Types and components
  //

  datatype Type =
    | Bool | U8 | U16 | U32 | U64 | S8 | S16 | S32 | S64 | F32 | F64 | Char
    | String
    | Id(id: nat)
    | ErrorContext

  datatype FlagsRepr = Flags8 | Flags16 | Flags32(count: nat)

  datatype Kind =
    | Record(fields: seq<(string, Type)>)
    | Variant(cases: seq<(string, Option<Type>)>)
    | Enum(names: seq<string>)
    | Tuple(types: seq<Type>)
    | Flags(repr: FlagsRepr)
    | OptionOf(ty: Type)
    | ResultOf(ok: Option<Type>, err: Option<Type>)
    | List(element: Type)
    | FixedSizeList(element: Type, length: nat)
    | Alias(ty: Type)
    | Handle(own: bool, resource: nat)
    | Resource
    | Other

  datatype TypeDef = TypeDef(name: Option<string>, kind: Kind)

  datatype Component =
    | Primitive(name: string, ty: string, size: Option<nat>)
    | Composite(name: string, ty: string, components: seq<Component>)

  /** `Unfinished` stands for the branch that aborts the process. */
  datatype ConversionError = NotPrimitive | Unsupported | NotATuple | Unfinished

  /** The type table and the two letter-case conversions of the external library. */
  datatype Env = Env(types: seq<TypeDef>, pascal: string -> string, camel: string -> string)

  //
  // Acyclic tables
  //

  predicate TypeBelow(ty: Type, rank: seq<nat>, bound: nat) {
    ty.Id? ==> ty.id < |rank| && rank[ty.id] < bound
  }

  predicate OptionBelow(ty: Option<Type>, rank: seq<nat>, bound: nat) {
    ty.Some? ==> TypeBelow(ty.value, rank, bound)
  }

  predicate KindBelow(kind: Kind, rank: seq<nat>, bound: nat) {
    match kind
    case Record(fields) => forall f :: f in fields ==> TypeBelow(f.1, rank, bound)
    case Variant(cases) => forall c :: c in cases ==> OptionBelow(c.1, rank, bound)
    case Tuple(types) => forall t :: t in types ==> TypeBelow(t, rank, bound)
    case OptionOf(ty) => TypeBelow(ty, rank, bound)
    case ResultOf(ok, err) => OptionBelow(ok, rank, bound) && OptionBelow(err, rank, bound)
    case List(element) => TypeBelow(element, rank, bound)
    case FixedSizeList(element, _) => TypeBelow(element, rank, bound)
    case Alias(ty) => TypeBelow(ty, rank, bound)
    case Handle(_, resource) => resource < |rank|
    case _ => true
  }

  /** Every type refers only to types of smaller rank: no type contains itself. */
  predicate Acyclic(env: Env, rank: seq<nat>) {
    |rank| == |env.types| && forall id :: 0 <= id < |env.types| ==> KindBelow(env.types[id].kind, rank, rank[id])
  }

  //
  // The parts without a memo
  //

  function PrimitiveTypeInfo(ty: Type): Result<(string, nat), ConversionError> {
    match ty
    case Bool => Ok(("bool", 8))
    case U8 => Ok(("uint8", 8))
    case U16 => Ok(("uint16", 16))
    case U32 => Ok(("uint32", 32))
    case U64 => Ok(("uint64", 64))
    case S8 => Ok(("int8", 8))
    case S16 => Ok(("int16", 16))
    case S32 => Ok(("int32", 32))
    case S64 => Ok(("int64", 64))
    case F32 => Ok(("bytes4", 32))
    case F64 => Ok(("bytes8", 64))
    case Char => Ok(("bytes4", 32))
    case _ => Err(NotPrimitive)
  }

  function FlagBits(repr: FlagsRepr): nat {
    match repr case Flags8 => 8 case Flags16 => 16 case Flags32(n) => n * 32
  }

  function ResourceName(env: Env, id: nat): string
    requires id < |env.types|
  {
    match env.types[id].name case Some(n) => env.pascal(n) case None => "Resource"
  }

  function HandleTypeStr(env: Env, own: bool, resource: nat): string
    requires resource < |env.types|
  {
    (if own then "own<" else "borrow<") + ResourceName(env, resource) + ">"
  }

  /** Type text of an element without a field name; a named type is not looked into. */
  function UnnamedTypeInfo(env: Env, ghost rank: seq<nat>, ghost bound: nat, ty: Type): Result<(string, Option<nat>), ConversionError>
    requires Acyclic(env, rank) && TypeBelow(ty, rank, bound)
    decreases bound
  {
    if ty.String? then Ok(("string", None))
    else if !ty.Id? then
      var (name, size) :- PrimitiveTypeInfo(ty);
      Ok((name, Some(size)))
    else
      var def := env.types[ty.id];
      if def.name.Some? then Ok((env.pascal(def.name.value), None))
      else
        match def.kind
        case List(inner) =>
          var (name, _) :- UnnamedTypeInfo(env, rank, rank[ty.id], inner);
          Ok((name + "[]", None))
        case FixedSizeList(inner, length) =>
          var (name, size) :- UnnamedTypeInfo(env, rank, rank[ty.id], inner);
          Ok((name + "[" + Show(length) + "]", size))
        case Enum(_) => Ok(("enum", None))
        case Tuple(types) => Ok(("tuple<" + Show(|types|) + ">", None))
        case Flags(repr) => Ok(("uint" + Show(FlagBits(repr)), Some(FlagBits(repr))))
        case Handle(own, resource) => Ok((HandleTypeStr(env, own, resource), None))
        case Resource => Ok(("resource", None))
        case Alias(t) => UnnamedTypeInfo(env, rank, rank[ty.id], t)
        case _ => Ok(("unsupported", None))
  }

  function NoneComponent(name: string): Component {
    Primitive(name, "none", Some(0))
  }

  function Retyped(c: Component, ty: string): Component {
    match c
    case Primitive(_, _, _) => c.(ty := ty)
    case Composite(_, _, _) => c.(ty := ty)
  }

  function Renamed(c: Component, name: string): Component {
    match c
    case Primitive(_, _, _) => c.(name := name)
    case Composite(_, _, _) => c.(name := name)
  }

  /** Kinds that are converted without looking at other definitions' components. */
  function LeafComponent(env: Env, ghost rank: seq<nat>, id: nat, name: string): Result<Component, ConversionError>
    requires Acyclic(env, rank) && id < |env.types|
  {
    match env.types[id].kind
    case Flags(repr) => Ok(Primitive(name, "uint" + Show(FlagBits(repr)), Some(FlagBits(repr))))
    case List(element) =>
      var (inner, _) :- UnnamedTypeInfo(env, rank, rank[id], element);
      Ok(Primitive(name, inner + "[]", None))
    case FixedSizeList(element, length) =>
      var (inner, size) :- UnnamedTypeInfo(env, rank, rank[id], element);
      Ok(Primitive(name, inner + "[" + Show(length) + "]", size))
    case Handle(own, resource) => Ok(Primitive(name, HandleTypeStr(env, own, resource), None))
    case Resource => Ok(Primitive(name, "resource<" + ResourceName(env, id) + ">", None))
    case _ => Err(Unsupported)
  }

  //
  // The plain conversion: no memo, recursion only
  //

  /** Named parts of a composite, in order; a part without a type becomes a "none" component. */
  type Parts = seq<(string, Option<Type>)>

  predicate PartsBelow(parts: Parts, rank: seq<nat>, bound: nat) {
    forall p :: p in parts ==> OptionBelow(p.1, rank, bound)
  }

  function RecordParts(env: Env, fields: seq<(string, Type)>): Parts {
    seq(|fields|, i requires 0 <= i < |fields| => (env.camel(fields[i].0), Some(fields[i].1)))
  }

  function VariantParts(env: Env, cases: seq<(string, Option<Type>)>): Parts {
    seq(|cases|, i requires 0 <= i < |cases| => (env.camel(cases[i].0), cases[i].1))
  }

  function EnumParts(env: Env, names: seq<string>): Parts {
    seq(|names|, i requires 0 <= i < |names| => (env.camel(names[i]), None))
  }

  function TupleParts(types: seq<Type>): Parts {
    seq(|types|, i requires 0 <= i < |types| => ("item" + Show(i), Some(types[i])))
  }

  /** What a composite kind consists of: its schema type and its parts. */
  function CompositeOf(env: Env, kind: Kind): Option<(string, Parts)> {
    match kind
    case Record(fields) => Some(("tuple", RecordParts(env, fields)))
    case Variant(cases) => Some(("union", VariantParts(env, cases)))
    case Enum(names) => Some(("union", EnumParts(env, names)))
    case Tuple(types) => Some(("tuple", TupleParts(types)))
    case OptionOf(ty) => Some(("union", [("none", None), ("some", Some(ty))]))
    case ResultOf(ok, err) => Some(("union", [("ok", ok), ("err", err)]))
    case _ => None
  }

  ghost function PlainType(env: Env, rank: seq<nat>, bound: nat, ty: Type, name: string): Result<Component, ConversionError>
    requires Acyclic(env, rank) && TypeBelow(ty, rank, bound)
    decreases bound, 1, 0
  {
    if ty.String? then Ok(Primitive(name, "string", None))
    else if ty.Id? then PlainDef(env, rank, ty.id, name)
    else if ty.ErrorContext? then Err(Unfinished)
    else
      var (text, size) :- PrimitiveTypeInfo(ty);
      Ok(Primitive(name, text, Some(size)))
  }

  ghost function PlainParts(env: Env, rank: seq<nat>, bound: nat, parts: Parts): Result<seq<Component>, ConversionError>
    requires Acyclic(env, rank) && PartsBelow(parts, rank, bound)
    decreases bound, 2, |parts|
  {
    if parts == [] then Ok([])
    else
      var before :- PlainParts(env, rank, bound, parts[..|parts| - 1]);
      var (name, ty) := parts[|parts| - 1];
      if ty.None? then Ok(before + [NoneComponent(name)])
      else
        var c :- PlainType(env, rank, bound, ty.value, name);
        Ok(before + [c])
  }

  ghost function PlainDef(env: Env, rank: seq<nat>, id: nat, name: string): Result<Component, ConversionError>
    requires Acyclic(env, rank) && id < |rank|
    decreases rank[id], 3, 0
  {
    var TypeDef(alias, kind) := env.types[id];
    var composite := CompositeOf(env, kind);
    if kind.Alias? then
      var c :- PlainType(env, rank, rank[id], kind.ty, name);
      Ok(if alias.Some? then Retyped(c, alias.value) else c)
    else if composite.None? then LeafComponent(env, rank, id, name)
    else
      PartsOfKindBelow(env, kind, rank, rank[id]);
      var components :- PlainParts(env, rank, rank[id], composite.value.1);
      Ok(Composite(name, composite.value.0, components))
  }

  lemma PartsOfKindBelow(env: Env, kind: Kind, rank: seq<nat>, bound: nat)
    requires KindBelow(kind, rank, bound)
    ensures CompositeOf(env, kind).Some? ==> PartsBelow(CompositeOf(env, kind).value.1, rank, bound)
  {
  }

  //
  // The requested name
  //

  ghost function WithName(r: Result<Component, ConversionError>, name: string): Result<Component, ConversionError> {
    match r case Ok(c) => Ok(Renamed(c, name)) case Err(e) => Err(e)
  }

  lemma {:induction false} TypeDependsOnNameOnlyAtTop(env: Env, rank: seq<nat>, bound: nat, ty: Type, name: string, other: string)
    requires Acyclic(env, rank) && TypeBelow(ty, rank, bound)
    ensures PlainType(env, rank, bound, ty, other) == WithName(PlainType(env, rank, bound, ty, name), other)
    ensures PlainType(env, rank, bound, ty, name).Ok? ==> PlainType(env, rank, bound, ty, name).value.name == name
    decreases bound, 1
  {
    if ty.Id? {
      DependsOnNameOnlyAtTop(env, rank, ty.id, name, other);
    }
  }

  /** The requested name shows up in the top-level name field and nowhere else, aliases included. */
  lemma {:induction false} DependsOnNameOnlyAtTop(env: Env, rank: seq<nat>, id: nat, name: string, other: string)
    requires Acyclic(env, rank) && id < |rank|
    ensures PlainDef(env, rank, id, other) == WithName(PlainDef(env, rank, id, name), other)
    ensures PlainDef(env, rank, id, name).Ok? ==> PlainDef(env, rank, id, name).value.name == name
    decreases rank[id], 2
  {
    var kind := env.types[id].kind;
    if kind.Alias? {
      TypeDependsOnNameOnlyAtTop(env, rank, rank[id], kind.ty, name, other);
    }
  }

  //
  // The whole table
  //

  datatype Entry = Entry(id: nat, name: string)

  predicate EntriesFit(env: Env, entries: seq<Entry>) {
    forall e :: e in entries ==> e.id < |env.types|
  }

  predicate IsTopLevel(def: TypeDef) {
    def.name.Some? && (def.kind.Record? || def.kind.Variant?)
  }

  /** The named records and variants among the first types of the table. */
  function TopLevelEntries(env: Env, types: seq<TypeDef>): (entries: seq<Entry>)
    ensures forall e :: e in entries ==> e.id < |types| && IsTopLevel(types[e.id]) && e.name == env.pascal(types[e.id].name.value)
  {
    if types == [] then []
    else
      var id := |types| - 1;
      TopLevelEntries(env, types[..id]) + if IsTopLevel(types[id]) then [Entry(id, env.pascal(types[id].name.value))] else []
  }

  lemma TopLevelEntriesFit(env: Env, types: seq<TypeDef>)
    requires types == env.types
    ensures EntriesFit(env, TopLevelEntries(env, types))
  {
  }

  /** The plain conversion of a list of entries; a later entry of the same name wins. */
  ghost function PlainAll(env: Env, rank: seq<nat>, entries: seq<Entry>): Result<map<string, Component>, ConversionError>
    requires Acyclic(env, rank) && EntriesFit(env, entries)
  {
    if entries == [] then Ok(map[])
    else
      var structs :- PlainAll(env, rank, entries[..|entries| - 1]);
      var e := entries[|entries| - 1];
      var c :- PlainDef(env, rank, e.id, e.name);
      if c.Composite? then Ok(structs[e.name := c]) else Err(NotATuple)
  }

  lemma {:induction false} AllPrefixFails(env: Env, rank: seq<nat>, entries: seq<Entry>, i: nat)
    requires Acyclic(env, rank) && EntriesFit(env, entries) && i <= |entries|
    requires PlainAll(env, rank, entries[..i]).Err?
    ensures PlainAll(env, rank, entries) == PlainAll(env, rank, entries[..i])
    decreases |entries|
  {
    if i == |entries| {
      assert entries[..i] == entries;
    } else {
      assert entries[..|entries| - 1][..i] == entries[..i];
      AllPrefixFails(env, rank, entries[..|entries| - 1], i);
    }
  }

  /** Records and variants always become composites. */
  lemma {:induction false} NeverNotATuple(env: Env, rank: seq<nat>, entries: seq<Entry>)
    requires Acyclic(env, rank) && EntriesFit(env, entries)
    requires forall e :: e in entries ==> IsTopLevel(env.types[e.id])
    ensures PlainAll(env, rank, entries) != Err(NotATuple)
  {
    if entries == [] {
    } else {
      var front, e := entries[..|entries| - 1], entries[|entries| - 1];
      NeverNotATuple(env, rank, front);
      NoTupleError(env, rank, e.id, e.name);
    }
  }

  lemma {:induction false} NoTupleErrorInParts(env: Env, rank: seq<nat>, bound: nat, parts: Parts)
    requires Acyclic(env, rank) && PartsBelow(parts, rank, bound)
    ensures PlainParts(env, rank, bound, parts) != Err(NotATuple)
    decreases bound, 2, |parts|
  {
    if parts == [] {
    } else {
      NoTupleErrorInParts(env, rank, bound, parts[..|parts| - 1]);
      var ty := parts[|parts| - 1].1;
      if ty.Some? && ty.value.Id? {
        NoTupleError(env, rank, ty.value.id, parts[|parts| - 1].0);
      }
    }
  }

  lemma {:induction false} NoTupleErrorInText(env: Env, rank: seq<nat>, bound: nat, ty: Type)
    requires Acyclic(env, rank) && TypeBelow(ty, rank, bound)
    ensures UnnamedTypeInfo(env, rank, bound, ty) != Err(NotATuple)
    decreases bound
  {
    if ty.Id? {
      match env.types[ty.id].kind
      case List(inner) => NoTupleErrorInText(env, rank, rank[ty.id], inner);
      case FixedSizeList(inner, _) => NoTupleErrorInText(env, rank, rank[ty.id], inner);
      case Alias(inner) => NoTupleErrorInText(env, rank, rank[ty.id], inner);
      case _ =>
    }
  }

  lemma {:induction false} NoTupleError(env: Env, rank: seq<nat>, id: nat, name: string)
    requires Acyclic(env, rank) && id < |rank|
    ensures PlainDef(env, rank, id, name) != Err(NotATuple)
    decreases rank[id], 3, 0
  {
    var kind := env.types[id].kind;
    var composite := CompositeOf(env, kind);
    if kind.Alias? {
      if kind.ty.Id? {
        NoTupleError(env, rank, kind.ty.id, name);
      }
    } else if composite.Some? {
      PartsOfKindBelow(env, kind, rank, rank[id]);
      NoTupleErrorInParts(env, rank, rank[id], composite.value.1);
    } else if kind.List? || kind.FixedSizeList? {
      NoTupleErrorInText(env, rank, rank[id], kind.element);
    }
  }

  ghost predicate Converts(env: Env, rank: seq<nat>, e: Entry)
    requires Acyclic(env, rank) && e.id < |env.types|
  {
    var r := PlainDef(env, rank, e.id, e.name);
    r.Ok? && r.value.Composite?
  }

  lemma PlainAllSnoc(env: Env, rank: seq<nat>, entries: seq<Entry>)
    requires Acyclic(env, rank) && EntriesFit(env, entries) && entries != []
    ensures var front, last := PlainAll(env, rank, entries[..|entries| - 1]), entries[|entries| - 1];
            && (PlainAll(env, rank, entries).Ok? <==> front.Ok? && Converts(env, rank, last))
            && (PlainAll(env, rank, entries).Ok? ==>
                  PlainAll(env, rank, entries).value == front.value[last.name := PlainDef(env, rank, last.id, last.name).value])
  {
  }

  /** The conversion succeeds exactly when every entry converts, and then holds all their names. */
  lemma {:induction false} ConvertsAllIff(env: Env, rank: seq<nat>, entries: seq<Entry>)
    requires Acyclic(env, rank) && EntriesFit(env, entries)
    ensures PlainAll(env, rank, entries).Ok? <==> forall e :: e in entries ==> Converts(env, rank, e)
    ensures PlainAll(env, rank, entries).Ok? ==> forall e :: e in entries ==> e.name in PlainAll(env, rank, entries).value
  {
    if entries == [] {
    } else {
      var front, last := entries[..|entries| - 1], entries[|entries| - 1];
      ConvertsAllIff(env, rank, front);
      PlainAllSnoc(env, rank, entries);
      assert forall e :: e in entries <==> e in front || e == last;
    }
  }

  /** The entry a name of the result comes from. */
  lemma {:induction false} SourceOf(env: Env, rank: seq<nat>, entries: seq<Entry>, name: string) returns (e: Entry)
    requires Acyclic(env, rank) && EntriesFit(env, entries)
    requires PlainAll(env, rank, entries).Ok? && name in PlainAll(env, rank, entries).value
    ensures e in entries && e.name == name
    ensures PlainDef(env, rank, e.id, e.name) == Ok(PlainAll(env, rank, entries).value[name])
  {
    e := entries[|entries| - 1];
    if e.name == name {
    } else {
      e := SourceOf(env, rank, entries[..|entries| - 1], name);
    }
  }

  ghost predicate NoNameClash(env: Env, rank: seq<nat>, entries: seq<Entry>)
    requires Acyclic(env, rank) && EntriesFit(env, entries)
  {
    forall d, e :: d in entries && e in entries && d.name == e.name ==>
      PlainDef(env, rank, d.id, d.name) == PlainDef(env, rank, e.id, e.name)
  }

  lemma SameNameSameComponent(env: Env, rank: seq<nat>, a: seq<Entry>, b: seq<Entry>, name: string)
    requires Acyclic(env, rank) && EntriesFit(env, a) && EntriesFit(env, b)
    requires (forall e :: e in a <==> e in b) && NoNameClash(env, rank, a)
    requires PlainAll(env, rank, a).Ok? && PlainAll(env, rank, b).Ok? && name in PlainAll(env, rank, a).value
    ensures name in PlainAll(env, rank, b).value
    ensures PlainAll(env, rank, a).value[name] == PlainAll(env, rank, b).value[name]
  {
    var d := SourceOf(env, rank, a, name);
    ConvertsAllIff(env, rank, b);
    assert d in b;
    var e := SourceOf(env, rank, b, name);
    assert d in a && e in a;
  }

  lemma SameSuccess(env: Env, rank: seq<nat>, a: seq<Entry>, b: seq<Entry>)
    requires Acyclic(env, rank) && EntriesFit(env, a) && EntriesFit(env, b)
    requires forall e :: e in a <==> e in b
    ensures PlainAll(env, rank, a).Ok? == PlainAll(env, rank, b).Ok?
  {
    ConvertsAllIff(env, rank, a);
    ConvertsAllIff(env, rank, b);
  }

  lemma SubMap(m: map<string, Component>, m': map<string, Component>)
    requires forall name :: name in m ==> name in m' && m[name] == m'[name]
    requires forall name :: name in m' ==> name in m
    ensures m == m'
  {
  }

  /** In whatever order the entries are visited, the result is the same map, as long as entries
      that share a name convert alike. */
  lemma VisitingOrderIrrelevant(env: Env, rank: seq<nat>, a: seq<Entry>, b: seq<Entry>)
    requires Acyclic(env, rank) && EntriesFit(env, a) && EntriesFit(env, b)
    requires forall e :: e in a <==> e in b
    requires NoNameClash(env, rank, a)
    ensures PlainAll(env, rank, a).Ok? == PlainAll(env, rank, b).Ok?
    ensures PlainAll(env, rank, a).Ok? ==> PlainAll(env, rank, a).value == PlainAll(env, rank, b).value
  {
    SameSuccess(env, rank, a, b);
    if PlainAll(env, rank, a).Ok? {
      var ma, mb := PlainAll(env, rank, a).value, PlainAll(env, rank, b).value;
      forall name | name in ma ensures name in mb && ma[name] == mb[name] {
        SameNameSameComponent(env, rank, a, b, name);
      }
      forall name | name in mb ensures name in ma {
        assert NoNameClash(env, rank, b);
        SameNameSameComponent(env, rank, b, a, name);
      }
      SubMap(ma, mb);
    }
  }

  ghost function Elements(entries: seq<Entry>): set<Entry> {
    set e | e in entries
  }

  /** All orders of the entries give one result. */
  ghost predicate OneResult(env: Env, rank: seq<nat>, entries: set<Entry>)
    requires Acyclic(env, rank) && forall e :: e in entries ==> e.id < |env.types|
  {
    forall a, b :: Enumerates(a, entries) && Enumerates(b, entries) ==> PlainAll(env, rank, a) == PlainAll(env, rank, b)
  }

  lemma {:induction false} SomeOrder(entries: set<Entry>) returns (order: seq<Entry>)
    ensures Enumerates(order, entries)
    decreases entries
  {
    if entries == {} {
      order := [];
    } else {
      var e :| e in entries;
      order := SomeOrder(entries - {e});
      order := order + [e];
    }
  }

  /** An order that ends with the given entry, which then gives its name's component. */
  lemma OrderEndingWith(env: Env, rank: seq<nat>, entries: set<Entry>, e: Entry) returns (order: seq<Entry>)
    requires Acyclic(env, rank) && (forall d :: d in entries ==> d.id < |env.types| && Converts(env, rank, d)) && e in entries
    ensures Enumerates(order, entries)
    ensures PlainAll(env, rank, order).Ok? && e.name in PlainAll(env, rank, order).value
    ensures Ok(PlainAll(env, rank, order).value[e.name]) == PlainDef(env, rank, e.id, e.name)
  {
    var front := SomeOrder(entries - {e});
    order := front + [e];
    assert order[..|order| - 1] == front;
    ConvertsAllIff(env, rank, order);
    PlainAllSnoc(env, rank, order);
  }

  /** If every entry converts, all orders give one result exactly when entries that share a name convert alike. */
  lemma OneResultIff(env: Env, rank: seq<nat>, entries: seq<Entry>)
    requires Acyclic(env, rank) && EntriesFit(env, entries)
    requires forall e :: e in entries ==> Converts(env, rank, e)
    ensures OneResult(env, rank, Elements(entries)) <==> NoNameClash(env, rank, entries)
  {
    if NoNameClash(env, rank, entries) {
      forall a, b | Enumerates(a, Elements(entries)) && Enumerates(b, Elements(entries))
        ensures PlainAll(env, rank, a) == PlainAll(env, rank, b)
      {
        ConvertsAllIff(env, rank, a);
        VisitingOrderIrrelevant(env, rank, a, b);
      }
    } else {
      var d, e :| d in entries && e in entries && d.name == e.name &&
                  PlainDef(env, rank, d.id, d.name) != PlainDef(env, rank, e.id, e.name);
      var a := OrderEndingWith(env, rank, Elements(entries), d);
      var b := OrderEndingWith(env, rank, Elements(entries), e);
    }
  }

  //
  // What a schema component has to look like, said of the type table alone
  //

  /** The schema type and size in bits of a primitive type. */
  predicate PrimitiveAs(ty: Type, text: string, bits: nat) {
    match ty
    case Bool => text == "bool" && bits == 8
    case U8 => text == "uint8" && bits == 8
    case U16 => text == "uint16" && bits == 16
    case U32 => text == "uint32" && bits == 32
    case U64 => text == "uint64" && bits == 64
    case S8 => text == "int8" && bits == 8
    case S16 => text == "int16" && bits == 16
    case S32 => text == "int32" && bits == 32
    case S64 => text == "int64" && bits == 64
    case F32 => text == "bytes4" && bits == 32
    case F64 => text == "bytes8" && bits == 64
    case Char => text == "bytes4" && bits == 32
    case _ => false
  }

  predicate FlagsAs(repr: FlagsRepr, text: string, bits: nat) {
    text == "uint" + Show(bits) &&
    match repr case Flags8 => bits == 8 case Flags16 => bits == 16 case Flags32(words) => bits == 32 * words
  }

  /** A resource goes by its name in pascal case, or by "Resource" if it has none. */
  predicate HandleAs(env: Env, own: bool, resource: nat, text: string) {
    && resource < |env.types|
    && var of := env.types[resource].name;
       text == (if own then "own<" else "borrow<") + (if of.Some? then env.pascal(of.value) else "Resource") + ">"
  }

  /** The text and size an element type has inside a list: a named type is only named, and of no known size. */
  ghost predicate ElementAs(env: Env, rank: seq<nat>, bound: nat, ty: Type, text: string, size: Option<nat>)
    requires Acyclic(env, rank) && TypeBelow(ty, rank, bound)
    decreases bound, 0
  {
    match ty
    case String => text == "string" && size == None
    case Id(id) =>
      (match env.types[id].name
       case Some(name) => text == env.pascal(name) && size == None
       case None =>
         match env.types[id].kind
         case List(element) =>
           size == None && ListAs(env, rank, rank[id], element, text)
         case FixedSizeList(element, n) => FixedListAs(env, rank, rank[id], element, n, text, size)
         case Enum(_) => text == "enum" && size == None
         case Tuple(types) => text == "tuple<" + Show(|types|) + ">" && size == None
         case Flags(repr) => size.Some? && FlagsAs(repr, text, size.value)
         case Handle(own, resource) => size == None && HandleAs(env, own, resource, text)
         case Resource => text == "resource" && size == None
         case Alias(t) => ElementAs(env, rank, rank[id], t, text, size)
         case _ => text == "unsupported" && size == None)
    case _ => size.Some? && PrimitiveAs(ty, text, size.value)
  }

  /** A list of elements: their text and a pair of brackets. */
  ghost predicate ListAs(env: Env, rank: seq<nat>, bound: nat, element: Type, text: string)
    requires Acyclic(env, rank) && TypeBelow(element, rank, bound)
    decreases bound, 1
  {
    exists inner, z :: text == inner + "[]" && ElementAs(env, rank, bound, element, inner, z)
  }

  /** A list of fixed length: the length in the brackets, and the size of one element. */
  ghost predicate FixedListAs(env: Env, rank: seq<nat>, bound: nat, element: Type, n: nat, text: string, size: Option<nat>)
    requires Acyclic(env, rank) && TypeBelow(element, rank, bound)
    decreases bound, 1
  {
    exists inner :: text == inner + "[" + Show(n) + "]" && ElementAs(env, rank, bound, element, inner, size)
  }

  predicate IsNone(c: Component, name: string) {
    c == Primitive(name, "none", Some(0))
  }

  /** Component `c` is what type `ty` looks like, whatever its name. */
  ghost predicate Describes(env: Env, rank: seq<nat>, bound: nat, ty: Type, c: Component)
    requires Acyclic(env, rank) && TypeBelow(ty, rank, bound)
    decreases bound, 0
  {
    match ty
    case String => c.Primitive? && c.ty == "string" && c.size == None
    case Id(id) => DescribesDef(env, rank, id, c)
    case _ => c.Primitive? && c.size.Some? && PrimitiveAs(ty, c.ty, c.size.value)
  }

  ghost predicate DescribesOption(env: Env, rank: seq<nat>, bound: nat, ty: Option<Type>, name: string, c: Component)
    requires Acyclic(env, rank) && OptionBelow(ty, rank, bound)
    decreases bound, 1
  {
    match ty case None => IsNone(c, name) case Some(t) => c.name == name && Describes(env, rank, bound, t, c)
  }

  /** The same for an entry of the type table, kind by kind. */
  ghost predicate DescribesDef(env: Env, rank: seq<nat>, id: nat, c: Component)
    requires Acyclic(env, rank) && id < |rank|
    decreases rank[id], 2
  {
    match env.types[id].kind
    case Record(fields) =>
      && c.Composite? && c.ty == "tuple" && |c.components| == |fields|
      && forall i :: 0 <= i < |fields| ==>
           c.components[i].name == env.camel(fields[i].0) && Describes(env, rank, rank[id], fields[i].1, c.components[i])
    case Variant(cases) =>
      && c.Composite? && c.ty == "union" && |c.components| == |cases|
      && forall i :: 0 <= i < |cases| ==> DescribesOption(env, rank, rank[id], cases[i].1, env.camel(cases[i].0), c.components[i])
    case Enum(names) =>
      && c.Composite? && c.ty == "union" && |c.components| == |names|
      && forall i :: 0 <= i < |names| ==> IsNone(c.components[i], env.camel(names[i]))
    case Tuple(types) =>
      && c.Composite? && c.ty == "tuple" && |c.components| == |types|
      && forall i :: 0 <= i < |types| ==>
           c.components[i].name == "item" + Show(i) && Describes(env, rank, rank[id], types[i], c.components[i])
    case OptionOf(t) =>
      && c.Composite? && c.ty == "union" && |c.components| == 2
      && IsNone(c.components[0], "none")
      && c.components[1].name == "some" && Describes(env, rank, rank[id], t, c.components[1])
    case ResultOf(ok, err) =>
      && c.Composite? && c.ty == "union" && |c.components| == 2
      && DescribesOption(env, rank, rank[id], ok, "ok", c.components[0])
      && DescribesOption(env, rank, rank[id], err, "err", c.components[1])
    case Flags(repr) => c.Primitive? && c.size.Some? && FlagsAs(repr, c.ty, c.size.value)
    case List(element) =>
      c.Primitive? && c.size == None && ListAs(env, rank, rank[id], element, c.ty)
    case FixedSizeList(element, n) => c.Primitive? && FixedListAs(env, rank, rank[id], element, n, c.ty, c.size)
    case Handle(own, resource) => c.Primitive? && c.size == None && HandleAs(env, own, resource, c.ty)
    case Resource =>
      && c.Primitive? && c.size == None
      && var of := env.types[id].name;
         c.ty == "resource<" + (if of.Some? then env.pascal(of.value) else "Resource") + ">"
    case Alias(t) =>
      (match env.types[id].name
       case None => Describes(env, rank, rank[id], t, c)
       case Some(alias) => c.ty == alias && exists text :: Describes(env, rank, rank[id], t, WithText(c, text)))
    case Other => false
  }

  /** The same component with another schema type. */
  function WithText(c: Component, text: string): Component {
    match c
    case Primitive(name, _, size) => Primitive(name, text, size)
    case Composite(name, _, components) => Composite(name, text, components)
  }

  lemma PrimitiveIff(ty: Type, text: string, bits: nat)
    requires !ty.String? && !ty.Id?
    ensures PrimitiveTypeInfo(ty) == Ok((text, bits)) <==> PrimitiveAs(ty, text, bits)
    ensures PrimitiveTypeInfo(ty).Ok? ==> PrimitiveAs(ty, PrimitiveTypeInfo(ty).value.0, PrimitiveTypeInfo(ty).value.1)
  {
  }

  lemma SameFront(a: string, b: string, suffix: string)
    requires a + suffix == b + suffix
    ensures a == b
  {
    assert a == (a + suffix)[..|a|] && b == (b + suffix)[..|b|];
  }

  /** The text of an element is found exactly if there is one, and then is the only one. */
  lemma {:induction false} ElementIff(env: Env, rank: seq<nat>, bound: nat, ty: Type, text: string, size: Option<nat>)
    requires Acyclic(env, rank) && TypeBelow(ty, rank, bound)
    ensures UnnamedTypeInfo(env, rank, bound, ty) == Ok((text, size)) <==> ElementAs(env, rank, bound, ty, text, size)
    decreases bound, 0
  {
    if ty.Id? && env.types[ty.id].name.None? {
      var below := rank[ty.id];
      match env.types[ty.id].kind
      case List(element) =>
        ListText(env, rank, below, element, text);
      case FixedSizeList(element, n) =>
        FixedListText(env, rank, below, element, n, text, size);
      case Alias(t) => ElementIff(env, rank, below, t, text, size);
      case _ =>
    }
  }

  lemma {:induction false} ListText(env: Env, rank: seq<nat>, bound: nat, element: Type, text: string)
    requires Acyclic(env, rank) && TypeBelow(element, rank, bound)
    ensures var r := UnnamedTypeInfo(env, rank, bound, element);
            (r.Ok? && text == r.value.0 + "[]") <==> ListAs(env, rank, bound, element, text)
    decreases bound, 1
  {
    var r := UnnamedTypeInfo(env, rank, bound, element);
    if r.Ok? {
      ElementIff(env, rank, bound, element, r.value.0, r.value.1);
    }
    forall inner, z | ElementAs(env, rank, bound, element, inner, z) ensures r == Ok((inner, z)) {
      ElementIff(env, rank, bound, element, inner, z);
    }
  }

  lemma {:induction false} FixedListText(env: Env, rank: seq<nat>, bound: nat, element: Type, n: nat, text: string, size: Option<nat>)
    requires Acyclic(env, rank) && TypeBelow(element, rank, bound)
    ensures var r := UnnamedTypeInfo(env, rank, bound, element);
            (r.Ok? && text == r.value.0 + "[" + Show(n) + "]" && size == r.value.1) <==>
            FixedListAs(env, rank, bound, element, n, text, size)
    decreases bound, 1
  {
    var r := UnnamedTypeInfo(env, rank, bound, element);
    if r.Ok? {
      ElementIff(env, rank, bound, element, r.value.0, r.value.1);
    }
    forall inner | ElementAs(env, rank, bound, element, inner, size) ensures r == Ok((inner, size)) {
      ElementIff(env, rank, bound, element, inner, size);
    }
  }

  /** Conversion succeeds exactly with what describes the type. */
  lemma {:induction false} TypeDescribedIff(env: Env, rank: seq<nat>, bound: nat, ty: Type, name: string, c: Component)
    requires Acyclic(env, rank) && TypeBelow(ty, rank, bound)
    ensures PlainType(env, rank, bound, ty, name) == Ok(c) <==> c.name == name && Describes(env, rank, bound, ty, c)
    decreases bound, 0
  {
    if ty.Id? {
      DescribedIff(env, rank, ty.id, name, c);
    } else if !ty.String? && c.Primitive? && c.size.Some? {
      PrimitiveIff(ty, c.ty, c.size.value);
    }
  }

  lemma {:induction false} LeafDescribedIff(env: Env, rank: seq<nat>, id: nat, name: string, c: Component)
    requires Acyclic(env, rank) && id < |rank| && !env.types[id].kind.Alias? && CompositeOf(env, env.types[id].kind).None?
    ensures LeafComponent(env, rank, id, name) == Ok(c) <==> c.name == name && DescribesDef(env, rank, id, c)
  {
    match env.types[id].kind
    case List(element) =>
      ListText(env, rank, rank[id], element, c.ty);
    case FixedSizeList(element, n) =>
      if c.Primitive? {
        FixedListText(env, rank, rank[id], element, n, c.ty, c.size);
      }
    case _ =>
  }

  /** The parts of a composite, one by one. */
  ghost predicate DescribesParts(env: Env, rank: seq<nat>, bound: nat, parts: Parts, components: seq<Component>)
    requires Acyclic(env, rank) && PartsBelow(parts, rank, bound)
  {
    |components| == |parts| &&
    forall i :: 0 <= i < |parts| ==> DescribesOption(env, rank, bound, parts[i].1, parts[i].0, components[i])
  }

  lemma {:induction false} PartsDescribedIff(env: Env, rank: seq<nat>, bound: nat, parts: Parts, components: seq<Component>)
    requires Acyclic(env, rank) && PartsBelow(parts, rank, bound)
    ensures PlainParts(env, rank, bound, parts) == Ok(components) <==> DescribesParts(env, rank, bound, parts, components)
    decreases bound, 1, |parts|
  {
    if parts == [] {
    } else if components != [] {
      var (name, ty) := parts[|parts| - 1];
      var front, last := components[..|components| - 1], components[|components| - 1];
      PartsDescribedIff(env, rank, bound, parts[..|parts| - 1], front);
      if ty.Some? {
        TypeDescribedIff(env, rank, bound, ty.value, name, last);
      }
      assert components == front + [last];
      PartsSnocIff(env, rank, bound, parts, front, last);
      PlainPartsSnoc(env, rank, bound, parts, front, last);
    } else {
      assert PlainParts(env, rank, bound, parts) != Ok([]);
    }
  }

  lemma PlainPartsSnoc(env: Env, rank: seq<nat>, bound: nat, parts: Parts, front: seq<Component>, last: Component)
    requires Acyclic(env, rank) && PartsBelow(parts, rank, bound) && parts != []
    ensures var (name, ty) := parts[|parts| - 1];
            PlainParts(env, rank, bound, parts) == Ok(front + [last]) <==>
            && PlainParts(env, rank, bound, parts[..|parts| - 1]) == Ok(front)
            && if ty.None? then last == Primitive(name, "none", Some(0)) else PlainType(env, rank, bound, ty.value, name) == Ok(last)
  {
    var before := PlainParts(env, rank, bound, parts[..|parts| - 1]);
    if before.Ok? {
      forall x ensures before.value + [x] == front + [last] <==> before.value == front && x == last {
        SnocEqual(before.value, x, front, last);
      }
    }
  }

  lemma SnocEqual(a: seq<Component>, x: Component, b: seq<Component>, y: Component)
    ensures a + [x] == b + [y] <==> a == b && x == y
  {
    if a + [x] == b + [y] {
      assert a == (a + [x])[..|a|] && b == (b + [y])[..|b|];
      assert x == (a + [x])[|a|] && y == (b + [y])[|b|];
    }
  }

  lemma PartsSnocIff(env: Env, rank: seq<nat>, bound: nat, parts: Parts, front: seq<Component>, last: Component)
    requires Acyclic(env, rank) && PartsBelow(parts, rank, bound) && parts != []
    ensures DescribesParts(env, rank, bound, parts, front + [last]) <==>
            && DescribesParts(env, rank, bound, parts[..|parts| - 1], front)
            && DescribesOption(env, rank, bound, parts[|parts| - 1].1, parts[|parts| - 1].0, last)
  {
  }

  lemma PairDescribed(env: Env, rank: seq<nat>, bound: nat, parts: Parts, components: seq<Component>)
    requires Acyclic(env, rank) && PartsBelow(parts, rank, bound) && |parts| == 2
    ensures DescribesParts(env, rank, bound, parts, components) <==>
            && |components| == 2
            && DescribesOption(env, rank, bound, parts[0].1, parts[0].0, components[0])
            && DescribesOption(env, rank, bound, parts[1].1, parts[1].0, components[1])
  {
  }

  lemma CompositeDescribedIff(env: Env, rank: seq<nat>, id: nat, c: Component)
    requires Acyclic(env, rank) && id < |rank| && CompositeOf(env, env.types[id].kind).Some?
    ensures PartsBelow(CompositeOf(env, env.types[id].kind).value.1, rank, rank[id])
    ensures var (text, parts) := CompositeOf(env, env.types[id].kind).value;
            DescribesDef(env, rank, id, c) <==>
            c.Composite? && c.ty == text && DescribesParts(env, rank, rank[id], parts, c.components)
  {
    var kind := env.types[id].kind;
    PartsOfKindBelow(env, kind, rank, rank[id]);
    var parts := CompositeOf(env, kind).value.1;
    if c.Composite? && (kind.OptionOf? || kind.ResultOf?) {
      PairDescribed(env, rank, rank[id], parts, c.components);
    }
  }

  lemma AliasDescribedIff(env: Env, rank: seq<nat>, id: nat, name: string, c: Component)
    requires Acyclic(env, rank) && id < |rank| && env.types[id].kind.Alias?
    requires forall d :: PlainType(env, rank, rank[id], env.types[id].kind.ty, name) == Ok(d) <==>
               d.name == name && Describes(env, rank, rank[id], env.types[id].kind.ty, d)
    ensures PlainDef(env, rank, id, name) == Ok(c) <==> c.name == name && DescribesDef(env, rank, id, c)
  {
    var t := env.types[id].kind.ty;
    var r := PlainType(env, rank, rank[id], t, name);
    if r.Ok? && PlainDef(env, rank, id, name) == Ok(c) {
      assert WithText(c, r.value.ty) == r.value;
    }
    if env.types[id].name.Some? && c.name == name && DescribesDef(env, rank, id, c) {
      var text :| Describes(env, rank, rank[id], t, WithText(c, text));
      assert r == Ok(WithText(c, text));
    }
  }

  /** The plain conversion of an entry succeeds exactly with a component that describes it, under the requested name. */
  lemma {:induction false} DescribedIff(env: Env, rank: seq<nat>, id: nat, name: string, c: Component)
    requires Acyclic(env, rank) && id < |rank|
    ensures PlainDef(env, rank, id, name) == Ok(c) <==> c.name == name && DescribesDef(env, rank, id, c)
    decreases rank[id], 2, 0
  {
    var kind := env.types[id].kind;
    if kind.Alias? {
      forall d ensures PlainType(env, rank, rank[id], kind.ty, name) == Ok(d) <==>
                       d.name == name && Describes(env, rank, rank[id], kind.ty, d)
      {
        TypeDescribedIff(env, rank, rank[id], kind.ty, name, d);
      }
      AliasDescribedIff(env, rank, id, name, c);
    } else if CompositeOf(env, kind).None? {
      LeafDescribedIff(env, rank, id, name, c);
    } else {
      CompositeDescribedIff(env, rank, id, c);
      if c.Composite? {
        PartsDescribedIff(env, rank, rank[id], CompositeOf(env, kind).value.1, c.components);
      }
    }
  }

  /** A conversion gives what describes the entry, and fails only if nothing of that name does. */
  lemma DefDescribed(env: Env, rank: seq<nat>, id: nat, name: string)
    requires Acyclic(env, rank) && id < |rank|
    ensures var r := PlainDef(env, rank, id, name);
            && (r.Ok? ==> r.value.name == name && DescribesDef(env, rank, id, r.value))
            && (r.Err? ==> forall c: Component :: c.name == name ==> !DescribesDef(env, rank, id, c))
  {
    forall c: Component ensures PlainDef(env, rank, id, name) == Ok(c) <==> c.name == name && DescribesDef(env, rank, id, c) {
      DescribedIff(env, rank, id, name, c);
    }
  }

  /** Entry `id` is a named record or variant; it goes by its name in pascal case. */
  predicate NamedAs(env: Env, id: nat, name: string) {
    && id < |env.types| && env.types[id].name.Some? && (env.types[id].kind.Record? || env.types[id].kind.Variant?)
    && env.pascal(env.types[id].name.value) == name
  }

  /** The last entry of the first `n` types that goes by a name. */
  predicate LastNamed(env: Env, n: nat, id: nat, name: string) {
    id < n && NamedAs(env, id, name) && forall later :: id < later < n ==> !NamedAs(env, later, name)
  }

  /** The schema of the first `n` types: each name stands for the last record or variant of that name. */
  ghost predicate SchemaOf(env: Env, rank: seq<nat>, n: nat, schema: map<string, Component>)
    requires Acyclic(env, rank) && n <= |env.types|
  {
    && (forall id: nat, name: string :: LastNamed(env, n, id, name) ==>
          name in schema && schema[name].Composite? && schema[name].name == name && DescribesDef(env, rank, id, schema[name]))
    && forall name :: name in schema ==> IsNamed(env, n, name)
  }

  ghost predicate IsNamed(env: Env, n: nat, name: string) {
    exists id: nat :: LastNamed(env, n, id, name)
  }

  /** There is a component for each named record and variant. */
  ghost predicate AllHaveSchema(env: Env, rank: seq<nat>, n: nat)
    requires Acyclic(env, rank) && n <= |env.types|
  {
    forall id: nat, name: string :: id < n && NamedAs(env, id, name) ==> HasSchema(env, rank, id, name)
  }

  /** There is a component for entry `id` under its name. */
  ghost predicate HasSchema(env: Env, rank: seq<nat>, id: nat, name: string)
    requires Acyclic(env, rank) && id < |env.types|
  {
    exists c: Component :: c.Composite? && c.name == name && DescribesDef(env, rank, id, c)
  }

  lemma ConvertsIff(env: Env, rank: seq<nat>, e: Entry)
    requires Acyclic(env, rank) && e.id < |env.types|
    ensures Converts(env, rank, e) <==> HasSchema(env, rank, e.id, e.name)
    ensures Converts(env, rank, e) ==>
              var c := PlainDef(env, rank, e.id, e.name).value; c.name == e.name && DescribesDef(env, rank, e.id, c)
  {
    var r := PlainDef(env, rank, e.id, e.name);
    if r.Ok? {
      DescribedIff(env, rank, e.id, e.name, r.value);
    }
    if HasSchema(env, rank, e.id, e.name) {
      var c: Component :| c.Composite? && c.name == e.name && DescribesDef(env, rank, e.id, c);
      DescribedIff(env, rank, e.id, e.name, c);
    }
  }

  lemma EntriesSnoc(env: Env, n: nat)
    requires n < |env.types|
    ensures var types, front := env.types[..n + 1], env.types[..n];
            TopLevelEntries(env, types) ==
            TopLevelEntries(env, front) + if IsTopLevel(types[n]) then [Entry(n, env.pascal(types[n].name.value))] else []
  {
    assert env.types[..n + 1][..n] == env.types[..n];
  }

  /** One more type: its name, if it has one, now stands for it. */
  lemma LastNamedSnoc(env: Env, n: nat, m: nat, id: nat, name: string)
    requires m == n + 1 && n < |env.types|
    ensures LastNamed(env, m, id, name) <==>
            (id == n && NamedAs(env, n, name)) || (LastNamed(env, n, id, name) && !NamedAs(env, n, name))
  {
  }

  lemma LastKept(env: Env, n: nat, m: nat, id: nat, name: string, other: string)
    requires m == n + 1 && n < |env.types| && NamedAs(env, n, other)
    ensures LastNamed(env, m, id, name) <==> if name == other then id == n else LastNamed(env, n, id, name)
  {
    LastNamedSnoc(env, n, m, id, name);
  }

  lemma NamesSnoc(env: Env, n: nat, m: nat, name: string, other: string)
    requires m == n + 1 && n < |env.types| && NamedAs(env, n, other) && (name == other || IsNamed(env, n, name))
    ensures IsNamed(env, m, name)
  {
    if name == other {
      LastKept(env, n, m, n, name, other);
    } else {
      var id: nat :| LastNamed(env, n, id, name);
      LastKept(env, n, m, id, name, other);
    }
  }

  lemma SchemaSnoc(env: Env, rank: seq<nat>, n: nat, m: nat, schema: map<string, Component>, c: Component)
    requires m == n + 1 && Acyclic(env, rank) && n < |env.types| && SchemaOf(env, rank, n, schema)
    requires NamedAs(env, n, c.name) && c.Composite? && DescribesDef(env, rank, n, c)
    ensures SchemaOf(env, rank, m, schema[c.name := c])
  {
    var next := schema[c.name := c];
    forall id: nat, name: string | LastNamed(env, m, id, name)
      ensures name in next && next[name].Composite? && next[name].name == name && DescribesDef(env, rank, id, next[name])
    {
      LastKept(env, n, m, id, name, c.name);
      assert name != c.name ==> LastNamed(env, n, id, name);
    }
    forall name | name in next ensures IsNamed(env, m, name) {
      NamesSnoc(env, n, m, name, c.name);
    }
  }

  lemma SchemaSkips(env: Env, rank: seq<nat>, n: nat, m: nat, schema: map<string, Component>)
    requires m == n + 1 && Acyclic(env, rank) && n < |env.types| && SchemaOf(env, rank, n, schema) && !IsTopLevel(env.types[n])
    ensures SchemaOf(env, rank, m, schema)
  {
    forall id: nat, name: string ensures LastNamed(env, n, id, name) <==> LastNamed(env, m, id, name) {
      LastNamedSnoc(env, n, m, id, name);
    }
    forall name | name in schema ensures IsNamed(env, m, name) {
      var id: nat :| LastNamed(env, n, id, name);
      assert LastNamed(env, m, id, name);
    }
  }

  lemma AllHaveSchemaSnoc(env: Env, rank: seq<nat>, n: nat, m: nat)
    requires m == n + 1 && Acyclic(env, rank) && n < |env.types|
    ensures AllHaveSchema(env, rank, m) <==>
            && AllHaveSchema(env, rank, n)
            && (IsTopLevel(env.types[n]) ==> HasSchema(env, rank, n, env.pascal(env.types[n].name.value)))
  {
    if IsTopLevel(env.types[n]) {
      assert NamedAs(env, n, env.pascal(env.types[n].name.value));
    }
  }

  /** What the entries of the first `n` types are converted to. */
  ghost predicate ConvertedUpTo(env: Env, rank: seq<nat>, n: nat, r: Result<map<string, Component>, ConversionError>)
    requires Acyclic(env, rank) && n <= |env.types|
  {
    && (r.Ok? <==> AllHaveSchema(env, rank, n))
    && (r.Ok? ==> SchemaOf(env, rank, n, r.value))
  }

  lemma ConvertedSnoc(env: Env, rank: seq<nat>, n: nat, m: nat, e: Entry, before: Result<map<string, Component>, ConversionError>,
                      after: Result<map<string, Component>, ConversionError>)
    requires m == n + 1 && Acyclic(env, rank) && n < |env.types| && ConvertedUpTo(env, rank, n, before)
    requires IsTopLevel(env.types[n]) && e == Entry(n, env.pascal(env.types[n].name.value))
    requires after.Ok? <==> before.Ok? && Converts(env, rank, e)
    requires after.Ok? ==> after.value == before.value[e.name := PlainDef(env, rank, e.id, e.name).value]
    ensures ConvertedUpTo(env, rank, m, after)
  {
    ConvertsIff(env, rank, e);
    AllHaveSchemaSnoc(env, rank, n, m);
    if after.Ok? {
      SchemaSnoc(env, rank, n, m, before.value, PlainDef(env, rank, e.id, e.name).value);
    }
  }

  lemma ConvertedSkips(env: Env, rank: seq<nat>, n: nat, m: nat, r: Result<map<string, Component>, ConversionError>)
    requires m == n + 1 && Acyclic(env, rank) && n < |env.types| && !IsTopLevel(env.types[n]) && ConvertedUpTo(env, rank, n, r)
    ensures ConvertedUpTo(env, rank, m, r)
  {
    AllHaveSchemaSnoc(env, rank, n, m);
    if r.Ok? {
      SchemaSkips(env, rank, n, m, r.value);
    }
  }

  lemma TopLevelFits(env: Env, n: nat)
    requires n <= |env.types|
    ensures EntriesFit(env, TopLevelEntries(env, env.types[..n]))
  {
  }

  /** The conversion of the table succeeds exactly if every named record and variant has a component, and gives
      their schema. */
  lemma {:induction false} SchemaUpTo(env: Env, rank: seq<nat>, n: nat)
    requires Acyclic(env, rank) && n <= |env.types|
    ensures EntriesFit(env, TopLevelEntries(env, env.types[..n]))
    ensures ConvertedUpTo(env, rank, n, PlainAll(env, rank, TopLevelEntries(env, env.types[..n])))
  {
    TopLevelFits(env, n);
    if n == 0 {
      assert AllHaveSchema(env, rank, 0);
    } else {
      var front, entries := TopLevelEntries(env, env.types[..n - 1]), TopLevelEntries(env, env.types[..n]);
      SchemaUpTo(env, rank, n - 1);
      EntriesSnoc(env, n - 1);
      if IsTopLevel(env.types[n - 1]) {
        assert entries[..|entries| - 1] == front;
        PlainAllSnoc(env, rank, entries);
        ConvertedSnoc(env, rank, n - 1, n, entries[|entries| - 1], PlainAll(env, rank, front), PlainAll(env, rank, entries));
      } else {
        assert entries == front;
        ConvertedSkips(env, rank, n - 1, n, PlainAll(env, rank, front));
      }
    }
  }

  //
  // The memoising converter
  //

  class Converter {
    const env: Env
    ghost const rank: seq<nat>
    var memo: map<nat, Component>

    /** Each memoised component is the plain conversion under the name it was first asked for. */
    ghost predicate Valid()
      reads this
    {
      && Acyclic(env, rank)
      && forall id :: id in memo ==> id < |env.types| && PlainDef(env, rank, id, memo[id].name) == Ok(memo[id])
    }

    constructor (env: Env, ghost rank: seq<nat>)
      requires Acyclic(env, rank)
      ensures Valid() && this.env == env && this.rank == rank && memo == map[]
    {
      this.env, this.rank, memo := env, rank, map[];
    }

    method ConvertType(ty: Type, name: string, ghost bound: nat) returns (r: Result<Component, ConversionError>)
      requires Valid() && TypeBelow(ty, rank, bound)
      modifies this`memo
      ensures Valid() && old(memo.Keys) <= memo.Keys
      ensures r == PlainType(env, rank, bound, ty, name)
      decreases bound, 1, 0
    {
      if ty.Id? {
        r := ConvertTypedef(ty.id, name);
      } else if ty.String? {
        r := Ok(Primitive(name, "string", None));
      } else if ty.ErrorContext? {
        r := Err(Unfinished);
      } else {
        var info := PrimitiveTypeInfo(ty);
        r := Ok(Primitive(name, info.value.0, Some(info.value.1)));
      }
    }

    /** Converts the parts of a composite one by one; stops at the first failure. */
    method ConvertParts(parts: Parts, ghost bound: nat) returns (r: Result<seq<Component>, ConversionError>)
      requires Valid() && PartsBelow(parts, rank, bound)
      modifies this`memo
      ensures Valid() && old(memo.Keys) <= memo.Keys
      ensures r == PlainParts(env, rank, bound, parts)
      decreases bound, 2, 0
    {
      var components := [];
      for i := 0 to |parts|
        invariant Valid() && old(memo.Keys) <= memo.Keys
        invariant PlainParts(env, rank, bound, parts[..i]) == Ok(components)
      {
        PrefixSnoc(parts, i);
        var (name, ty) := parts[i];
        if ty.None? {
          components := components + [NoneComponent(name)];
        } else {
          var c := ConvertType(ty.value, name, bound);
          if c.Err? {
            PrefixFails(env, rank, bound, parts, i + 1);
            return Err(c.error);
          }
          components := components + [c.value];
        }
      }
      assert parts[..|parts|] == parts;
      return Ok(components);
    }

    /** Answers from the memo under the requested name, or converts and memoises. */
    method ConvertTypedef(id: nat, name: string) returns (r: Result<Component, ConversionError>)
      requires Valid() && id < |env.types|
      modifies this`memo
      ensures Valid() && old(memo.Keys) <= memo.Keys
      ensures r == PlainDef(env, rank, id, name)
      ensures r.Ok? ==> id in memo && r.value.name == name && DescribesDef(env, rank, id, r.value)
      ensures r.Err? ==> forall c: Component :: c.name == name ==> !DescribesDef(env, rank, id, c)
      decreases rank[id], 3, 0
    {
      DefDescribed(env, rank, id, name);
      if id in memo {
        DependsOnNameOnlyAtTop(env, rank, id, memo[id].name, name);
        return Ok(Renamed(memo[id], name));
      }
      var TypeDef(alias, kind) := env.types[id];
      var composite := CompositeOf(env, kind);
      if kind.Alias? {
        r := ConvertType(kind.ty, name, rank[id]);
        if r.Ok? && alias.Some? {
          r := Ok(Retyped(r.value, alias.value));
        }
      } else if composite.None? {
        r := LeafComponent(env, rank, id, name);
      } else {
        PartsOfKindBelow(env, kind, rank, rank[id]);
        var components := ConvertParts(composite.value.1, rank[id]);
        r := if components.Ok? then Ok(Composite(name, composite.value.0, components.value)) else Err(components.error);
      }
      if r.Ok? {
        DependsOnNameOnlyAtTop(env, rank, id, name, name);
        memo := memo[id := r.value];
      }
    }

    /** Converts named entries in the given order, stopping at the first failure. */
    method ConvertEntries(entries: seq<Entry>) returns (r: Result<map<string, Component>, ConversionError>)
      requires Valid() && EntriesFit(env, entries)
      modifies this`memo
      ensures Valid() && old(memo.Keys) <= memo.Keys
      ensures r == PlainAll(env, rank, entries)
    {
      var structs: map<string, Component> := map[];
      for i := 0 to |entries|
        invariant Valid() && old(memo.Keys) <= memo.Keys
        invariant PlainAll(env, rank, entries[..i]) == Ok(structs)
      {
        assert entries[..i + 1][..i] == entries[..i];
        var Entry(id, name) := entries[i];
        var c := ConvertType(Id(id), name, rank[id] + 1);
        if c.Err? {
          AllPrefixFails(env, rank, entries, i + 1);
          return Err(c.error);
        }
        if !c.value.Composite? {
          AllPrefixFails(env, rank, entries, i + 1);
          return Err(NotATuple);
        }
        structs := structs[name := c.value];
      }
      assert entries[..|entries|] == entries;
      return Ok(structs);
    }

    /** All named records and variants of the table, under their converted names. */
    method ConvertAll() returns (r: Result<map<string, Component>, ConversionError>)
      requires Valid()
      modifies this`memo
      ensures Valid()
      ensures r == PlainAll(env, rank, TopLevelEntries(env, env.types))
      ensures r.Ok? <==> AllHaveSchema(env, rank, |env.types|)
      ensures r.Ok? ==> SchemaOf(env, rank, |env.types|, r.value)
      ensures r != Err(NotATuple)
    {
      TopLevelEntriesFit(env, env.types);
      r := ConvertEntries(TopLevelEntries(env, env.types));
      NeverNotATuple(env, rank, TopLevelEntries(env, env.types));
      SchemaUpTo(env, rank, |env.types|);
      assert env.types[..|env.types|] == env.types;
    }
  }

  lemma PrefixSnoc(parts: Parts, i: nat)
    requires i < |parts|
    ensures parts[..i + 1][..i] == parts[..i] && parts[..i + 1][i] == parts[i] && |parts[..i + 1]| == i + 1
  {
  }

  lemma {:induction false} PrefixFails(env: Env, rank: seq<nat>, bound: nat, parts: Parts, i: nat)
    requires Acyclic(env, rank) && PartsBelow(parts, rank, bound) && i <= |parts|
    requires PlainParts(env, rank, bound, parts[..i]).Err?
    ensures PlainParts(env, rank, bound, parts) == PlainParts(env, rank, bound, parts[..i])
    decreases |parts|
  {
    if i == |parts| {
      assert parts[..i] == parts;
    } else {
      var front := parts[..|parts| - 1];
      assert front[..i] == parts[..i];
      PrefixFails(env, rank, bound, front, i);
    }
  }
}
