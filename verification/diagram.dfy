/** The diagram driver shared by every output format: which entities, attributes,
    specializations and relationships a diagram shows, the bounded walk that widens an
    `only` list to the neighbours of its entities, and the order in which `generate` hands
    the pieces to a format. */
module Diagram {
  import opened Wrappers
  import opened Schema
  import Options
  import Config
  import Entities
  import Relationships
  import Specializations
  import Attributes
  import Domain
  import Seqs
  import Strings

  // ---------------------------------------------------------------------------
  // Reading options

  /** `options.key` read for its truthiness. */
  predicate On(o: Options.Options, key: string) {
    Options.Truthy(Options.Get(o, key))
  }

  /** ActiveSupport's `present?`: not nil, false, an all-blank string, an empty symbol or an
      empty array. */
  predicate Present(v: Options.Value) {
    match v
    case Nil => false
    case Bool(b) => b
    case Int(_) => true
    case Str(s) => exists i | 0 <= i < |s| :: !Strings.IsBlankChar(s[i])
    case Sym(n) => n != ""
    case List(xs) => |xs| > 0
  }

  /** Unicode spaces are blank and NUL is not. */
  lemma PresentChars()
    ensures !Present(Options.Str("\U{00A0}\U{3000}\n"))
    ensures Present(Options.Str("\0"))
  {
    assert !Strings.IsBlankChar("\0"[0]);
  }

  /** `[value].flatten`. */
  function FlattenValue(v: Options.Value): (r: seq<Options.Value>)
    ensures forall x | x in r :: !x.List?
    ensures !v.List? ==> r == [v]
    decreases v, 1
  {
    match v
    case List(xs) => FlattenValues(xs)
    case _ => [v]
  }

  function FlattenValues(xs: seq<Options.Value>): (r: seq<Options.Value>)
    ensures forall x | x in r :: !x.List?
    decreases xs, 0
  {
    if |xs| == 0 then [] else FlattenValue(xs[0]) + FlattenValues(xs[1..])
  }

  /** `map(&:to_sym)`: the names of strings and symbols; anything else has no `to_sym`. */
  function SymbolNames(vs: seq<Options.Value>): (r: Result<seq<string>>)
    ensures r.Success? <==> forall i | 0 <= i < |vs| :: vs[i].Str? || vs[i].Sym?
    ensures r.Success? ==> |r.value| == |vs| && forall i | 0 <= i < |vs| :: r.value[i] == (if vs[i].Str? then vs[i].s else vs[i].name)
  {
    if |vs| == 0 then Success([])
    else
      var rest := SymbolNames(vs[1..]);
      assert forall i | 1 <= i < |vs| :: vs[1..][i - 1] == vs[i];
      if !vs[0].Str? && !vs[0].Sym? then Failure("undefined method `to_sym'")
      else if rest.Failure? then rest
      else Success([if vs[0].Str? then vs[0].s else vs[0].name] + rest.value)
  }

  /** `[option].flatten.map(&:to_sym)`. */
  function NameList(v: Options.Value): Result<seq<string>> {
    SymbolNames(FlattenValue(v))
  }

  /** A list of names, as a symbol or string or an array of them, gives those names. */
  lemma NameListOfNames(names: seq<string>)
    ensures NameList(Options.List(Config.Strs(names))) == Success(names)
    ensures NameList(Options.List(Config.Syms(names))) == Success(names)
    ensures forall n :: NameList(Options.Str(n)) == Success([n]) && NameList(Options.Sym(n)) == Success([n])
  {
    NameListOfStrs(names);
    NameListOfSyms(names);
    forall n ensures NameList(Options.Str(n)) == Success([n]) && NameList(Options.Sym(n)) == Success([n]) {
      NameListOfOne(n);
    }
  }

  lemma NameListOfOne(n: string)
    ensures NameList(Options.Str(n)) == Success([n]) && NameList(Options.Sym(n)) == Success([n])
  {
    assert FlattenValue(Options.Str(n)) == [Options.Str(n)];
    assert FlattenValue(Options.Sym(n)) == [Options.Sym(n)];
    assert SymbolNames([Options.Str(n)]).value == [n];
    assert SymbolNames([Options.Sym(n)]).value == [n];
  }

  lemma NameListOfStrs(names: seq<string>)
    ensures NameList(Options.List(Config.Strs(names))) == Success(names)
  {
    FlattenStrs(names);
    assert FlattenValue(Options.List(Config.Strs(names))) == Config.Strs(names);
    var a := SymbolNames(Config.Strs(names));
    assert a.Success?;
    assert a.value == names;
  }

  lemma NameListOfSyms(names: seq<string>)
    ensures NameList(Options.List(Config.Syms(names))) == Success(names)
  {
    FlattenSyms(names);
    assert FlattenValue(Options.List(Config.Syms(names))) == Config.Syms(names);
    var b := SymbolNames(Config.Syms(names));
    assert b.Success?;
    assert b.value == names;
  }

  lemma {:induction false} FlattenStrs(names: seq<string>)
    ensures FlattenValues(Config.Strs(names)) == Config.Strs(names)
  {
    if |names| > 0 {
      FlattenStrs(names[1..]);
      assert Config.Strs(names)[1..] == Config.Strs(names[1..]);
    }
  }

  lemma {:induction false} FlattenSyms(names: seq<string>)
    ensures FlattenValues(Config.Syms(names)) == Config.Syms(names)
  {
    if |names| > 0 {
      FlattenSyms(names[1..]);
      assert Config.Syms(names)[1..] == Config.Syms(names[1..]);
    }
  }

  // ---------------------------------------------------------------------------
  // The domain as a diagram sees it

  /** The entities, relationships and specializations of a domain, each computed once as
      the domain memoises them. */
  datatype Parts = Parts(
    entities: seq<Entities.Entity>,
    relationships: seq<Relationships.Relationship>,
    specializations: seq<Specializations.Specialization>)

  function PartsOf(d: Domain.Domain): Parts {
    Parts(Domain.EntitiesOf(d), Domain.RelationshipsOf(d), Domain.SpecializationsOf(d))
  }

  /** `relationships_by_entity_name` on the parts. */
  function RelationshipsNamed(p: Parts, name: string): seq<Relationships.Relationship> {
    Domain.Touching(p.relationships, Domain.SourceName, Domain.DestinationName, name)
  }

  /** The parts answer the entity-name lookup as the domain does. */
  lemma RelationshipsNamedAgree(d: Domain.Domain, name: string)
    requires Domain.EndsResolve(Domain.RelationshipsOf(d))
    ensures RelationshipsNamed(PartsOf(d), name) == Domain.RelationshipsByEntityName(d, name)
    ensures forall e: Entities.Entity | e.name == name :: Connected(PartsOf(d), e) <==> Domain.Connected(d, e)
  {
  }

  /** Every relationship end and every specialization end names an entity. The source
      reads `name` off each end and fails otherwise; `Domain.OwnersDeclareEndsResolve`
      gives the relationship half for a domain whose models declare their own
      associations. */
  predicate Resolved(p: Parts) {
    && Domain.EndsResolve(p.relationships)
    && forall s | s in p.specializations ::
         Entities.EntityByName(p.entities, s.generalized).Some? && Entities.EntityByName(p.entities, s.specialized).Some?
  }

  /** `entity.children`: the specialized end of every specialization with an end of that
      name, in specialization order. */
  function Children(p: Parts, name: string): (r: seq<Entities.Entity>)
    requires Resolved(p)
    ensures |r| == |Domain.Touching(p.specializations, Domain.GeneralizedName, Domain.SpecializedName, name)|
    ensures forall i | 0 <= i < |r| :: r[i].name == Domain.Touching(p.specializations, Domain.GeneralizedName, Domain.SpecializedName, name)[i].specialized
  {
    ChildrenOf(p, Domain.Touching(p.specializations, Domain.GeneralizedName, Domain.SpecializedName, name))
  }

  function ChildrenOf(p: Parts, ss: seq<Specializations.Specialization>): (r: seq<Entities.Entity>)
    requires forall s | s in ss :: Entities.EntityByName(p.entities, s.specialized).Some?
    ensures |r| == |ss|
    ensures forall i | 0 <= i < |r| :: r[i] == Entities.EntityByName(p.entities, ss[i].specialized).value && r[i].name == ss[i].specialized
  {
    if |ss| == 0 then []
    else
      assert ss[0] in ss;
      [Entities.EntityByName(p.entities, ss[0].specialized).value] + ChildrenOf(p, ss[1..])
  }

  /** `Entity#connected?`. */
  predicate Connected(p: Parts, e: Entities.Entity) {
    |RelationshipsNamed(p, e.name)| > 0
  }

  /** The foreign keys `Attribute#foreign_key?` compares against. */
  function ForeignKeys(p: Parts, modelName: string): seq<string> {
    Domain.ForeignKeysOf(RelationshipsNamed(p, modelName))
  }

  // ---------------------------------------------------------------------------
  // Entities

  const NoEntities := "No entities found; create your models first!"

  /** The rejection test of `filtered_entities`, evaluated as Ruby does, left to right with
      short-circuits; a name list with an entry that has no `to_sym` raises. */
  function Rejected(p: Parts, o: Options.Options, e: Entities.Entity): Result<bool>
  {
    var exclude := Options.Get(o, "exclude");
    var only := Options.Get(o, "only");
    var excluded := if Present(exclude) && e.model.Some? then Listed(NameList(exclude), e.name, true) else Success(false);
    if excluded.Failure? || excluded.value then excluded
    else
      var outside := if Present(only) && e.model.Some? then Listed(NameList(only), e.name, false) else Success(false);
      if outside.Failure? || outside.value then outside
      else Success(
        (!On(o, "inheritance") && Entities.Specialized(e))
        || (!On(o, "polymorphism") && Entities.Generalized(e))
        || (!On(o, "disconnected") && !Connected(p, e)))
  }

  /** Whether `name` is (`inside`) or is not (`!inside`) in the parsed list. */
  function Listed(names: Result<seq<string>>, name: string, inside: bool): (r: Result<bool>)
    ensures r.Failure? <==> names.Failure?
    ensures r.Success? ==> r.value == (inside == (name in names.value))
  {
    if names.Failure? then Failure(names.error) else Success(inside == (name in names.value))
  }

  /** The `exclude` and `only` options, when present, are lists of names. */
  predicate ListsParse(o: Options.Options) {
    && (Present(Options.Get(o, "exclude")) ==> NameList(Options.Get(o, "exclude")).Success?)
    && (Present(Options.Get(o, "only")) ==> NameList(Options.Get(o, "only")).Success?)
  }

  /** Which entities a diagram shows, stated declaratively: a model-backed entity must not
      be excluded and must be in `only` when that is given; a specialized entity needs
      `inheritance`, a generalized one `polymorphism` and a disconnected one
      `disconnected`. */
  predicate Shown(p: Parts, o: Options.Options, e: Entities.Entity)
    requires ListsParse(o)
  {
    var exclude := Options.Get(o, "exclude");
    var only := Options.Get(o, "only");
    && !(Present(exclude) && e.model.Some? && e.name in NameList(exclude).value)
    && !(Present(only) && e.model.Some? && e.name !in NameList(only).value)
    && (On(o, "inheritance") || !Entities.Specialized(e))
    && (On(o, "polymorphism") || !Entities.Generalized(e))
    && (On(o, "disconnected") || Connected(p, e))
  }

  /** When the name lists parse, the rejection test rejects exactly the entities not shown. */
  lemma RejectedIff(p: Parts, o: Options.Options, e: Entities.Entity)
    requires ListsParse(o)
    ensures Rejected(p, o, e) == Success(!Shown(p, o, e))
  {
  }

  /** `reject` over a list of entities; the first entity whose test raises stops it. */
  function SelectEntities(p: Parts, o: Options.Options, es: seq<Entities.Entity>): (r: Result<seq<Entities.Entity>>)
    ensures r.Success? <==> forall i | 0 <= i < |es| :: Rejected(p, o, es[i]).Success?
    ensures r.Success? ==> forall e :: e in r.value <==> e in es && Rejected(p, o, e) == Success(false)
    ensures r.Success? ==> r.value == Seqs.Filter(es, Kept(p, o))
  {
    if |es| == 0 then Success([])
    else
      var head := Rejected(p, o, es[0]);
      var rest := SelectEntities(p, o, es[1..]);
      assert forall e :: e in es <==> e == es[0] || e in es[1..] by { assert es == [es[0]] + es[1..]; }
      assert forall i | 1 <= i < |es| :: es[i] == es[1..][i - 1];
      assert forall e :: e in es <==> e == es[0] || e in es[1..] by { assert es == [es[0]] + es[1..]; }
      if head.Failure? then Failure(head.error)
      else if rest.Failure? then rest
      else if head.value then rest
      else Success([es[0]] + rest.value)
  }

  /** The entities `reject` keeps: those whose test answers false. */
  function Kept(p: Parts, o: Options.Options): Entities.Entity -> bool {
    (e: Entities.Entity) => Rejected(p, o, e) == Success(false)
  }

  /** `filtered_entities`: the domain's entities that are not rejected, in the domain's
      order; raises when none is left. */
  function FilteredEntities(p: Parts, o: Options.Options): (r: Result<seq<Entities.Entity>>)
    ensures r.Success? ==> |r.value| > 0 && forall e :: e in r.value <==> e in p.entities && Rejected(p, o, e) == Success(false)
    ensures (forall e | e in p.entities :: Rejected(p, o, e).Success?) ==>
              (r.Success? <==> exists e | e in p.entities :: Rejected(p, o, e) == Success(false))
    ensures r.Success? ==> Seqs.Picks(r.value, p.entities, Seqs.Positions(p.entities, Kept(p, o)))
    ensures r.Success? && Seqs.SortedBy(Entities.EntityLe, p.entities) ==> Seqs.SortedBy(Entities.EntityLe, r.value)
  {
    var es := p.entities;
    var kept := SelectEntities(p, o, es);
    Seqs.FilterPicks(es, Kept(p, o));
    assert Seqs.SortedBy(Entities.EntityLe, es) ==> Seqs.SortedBy(Entities.EntityLe, Seqs.Filter(es, Kept(p, o))) by {
      if Seqs.SortedBy(Entities.EntityLe, es) {
        Seqs.FilterSortedBy(Entities.EntityLe, es, Kept(p, o));
      }
    }
    if kept.Failure? then Failure(kept.error)
    else if |kept.value| == 0 then
      Failure(NoEntities)
    else
      assert kept.value[0] in kept.value;
      kept
  }

  /** With well-formed name lists, the diagram shows exactly the entities `Shown` admits,
      and fails with "No entities found" exactly when it admits none. */
  lemma FilteredEntitiesShown(p: Parts, o: Options.Options)
    requires ListsParse(o)
    ensures var r := FilteredEntities(p, o);
            && (r.Success? <==> exists e | e in p.entities :: Shown(p, o, e))
            && (r.Failure? ==> r.error == NoEntities)
            && (r.Success? ==> forall e :: e in r.value <==> e in p.entities && Shown(p, o, e))
  {
    var es := p.entities;
    forall e ensures Rejected(p, o, e) == Success(!Shown(p, o, e)) {
      RejectedIff(p, o, e);
    }
    assert forall i | 0 <= i < |es| :: Rejected(p, o, es[i]).Success?;
  }

  // ---------------------------------------------------------------------------
  // Relationships and specializations

  /** `filtered_relationships`: without the `indirect` option, the indirect relationships
      are dropped. */
  function FilteredRelationships(p: Parts, o: Options.Options): (r: seq<Relationships.Relationship>)
    ensures forall x :: x in r <==> x in p.relationships && (On(o, "indirect") || !Relationships.Indirect(x))
    ensures On(o, "indirect") ==> r == p.relationships
    ensures Seqs.Picks(r, p.relationships, Seqs.Positions(p.relationships, Drawn(o)))
  {
    var rs := p.relationships;
    var keep := Drawn(o);
    Seqs.FilterPicks(rs, keep);
    if On(o, "indirect") then Seqs.FilterAll(rs, keep); Seqs.Filter(rs, keep)
    else Seqs.Filter(rs, keep)
  }

  /** The relationships `filtered_relationships` keeps. */
  function Drawn(o: Options.Options): Relationships.Relationship -> bool {
    (x: Relationships.Relationship) => On(o, "indirect") || !Relationships.Indirect(x)
  }

  /** Whether `filtered_specializations` keeps a specialization: an inheritance edge needs
      `inheritance`, a polymorphic one `polymorphism`. The guard only keeps the predicate
      total: in resolved parts (`Resolved`) every generalized end names an entity, so the
      case where Ruby would call `generalized?` on nil does not arise. */
  predicate SpecializationShown(o: Options.Options, es: seq<Entities.Entity>, s: Specializations.Specialization) {
    Specializations.GeneralizedEntity(s, es).Some? ==>
      && (On(o, "inheritance") || !Specializations.Inheritance(s, es))
      && (On(o, "polymorphism") || !Specializations.Polymorphic(s, es))
  }

  /** `filtered_specializations`. */
  function FilteredSpecializations(p: Parts, o: Options.Options): (r: seq<Specializations.Specialization>)
    ensures forall s :: s in r <==> s in p.specializations && SpecializationShown(o, p.entities, s)
    ensures Seqs.Picks(r, p.specializations, Seqs.Positions(p.specializations, ShownBy(o, p.entities)))
  {
    Seqs.FilterPicks(p.specializations, ShownBy(o, p.entities));
    Seqs.Filter(p.specializations, ShownBy(o, p.entities))
  }

  function ShownBy(o: Options.Options, es: seq<Entities.Entity>): Specializations.Specialization -> bool {
    (s: Specializations.Specialization) => SpecializationShown(o, es, s)
  }

  /** A polymorphic edge is shown exactly when `polymorphism` is set and an inheritance edge
      exactly when `inheritance` is; the two options are independent. */
  lemma SpecializationShownIff(p: Parts, o: Options.Options, s: Specializations.Specialization)
    requires s in p.specializations
    requires Specializations.GeneralizedEntity(s, p.entities).Some?
    ensures s in FilteredSpecializations(p, o) <==>
              if Specializations.Polymorphic(s, p.entities) then On(o, "polymorphism") else On(o, "inheritance")
  {
  }

  // ---------------------------------------------------------------------------
  // Attributes

  /** Ruby's `chomp('s')`: one trailing "s" removed. */
  function ChompS(s: string): (r: string)
    ensures |s| > 0 && s[|s| - 1] == 's' ==> r + "s" == s
    ensures !(|s| > 0 && s[|s| - 1] == 's') ==> r == s
  {
    if |s| > 0 && s[|s| - 1] == 's' then s[..|s| - 1] else s
  }

  /** The attribute predicates the `attributes` option can name, with the "?" left off. */
  const Categories: seq<string> := ["content", "mandatory", "unique", "primary_key", "foreign_key", "inheritance", "false", "timestamp"]

  /** `attribute.send(:"#{category}?")`; a name that is not one of the attribute's
      predicates raises. */
  function Holds(p: Parts, a: Attributes.Attribute, category: string): (r: Result<bool>)
    ensures r.Success? <==> category in Categories
  {
    var fks := ForeignKeys(p, a.model.name);
    if category == "content" then Success(Attributes.IsContent(a, fks))
    else if category == "mandatory" then Success(Attributes.IsMandatory(a))
    else if category == "unique" then Success(Attributes.IsUnique(a))
    else if category == "primary_key" then Success(Attributes.IsPrimaryKey(a))
    else if category == "foreign_key" then Success(Attributes.IsForeignKey(a, fks))
    else if category == "inheritance" then Success(Attributes.IsInheritance(a))
    else if category == "false" then Success(false)
    else if category == "timestamp" then Success(Attributes.IsTimestamp(a))
    else Failure("undefined method `" + category + "?'")
  }

  /** The predicate an entry of the `attributes` option names: `type.to_s.chomp('s')`. */
  function CategoryOf(v: Options.Value): string {
    ChompS(Config.ToS(v))
  }

  /** `types.any? { |type| attribute.send(...) }`, stopping at the first category that
      holds; an unknown category raises only when it is reached. */
  function AnyCategory(p: Parts, a: Attributes.Attribute, types: seq<Options.Value>): (r: Result<bool>)
    ensures r == Success(true) ==> exists i | 0 <= i < |types| :: Holds(p, a, CategoryOf(types[i])) == Success(true)
    ensures (forall i | 0 <= i < |types| :: CategoryOf(types[i]) in Categories) ==>
              r == Success(exists i | 0 <= i < |types| :: Holds(p, a, CategoryOf(types[i])) == Success(true))
  {
    AnyBy(CategoryTest(p, a), types)
  }

  /** The test `any?` applies to each entry of the `attributes` option. */
  function CategoryTest(p: Parts, a: Attributes.Attribute): (test: Options.Value -> Result<bool>)
    ensures forall t :: test(t) == Holds(p, a, CategoryOf(t))
  {
    (t: Options.Value) => Holds(p, a, CategoryOf(t))
  }

  /** `any?` with a test that may raise: true at the first element whose test is true,
      failing at the first test that fails before it. */
  function AnyBy<T>(test: T -> Result<bool>, xs: seq<T>): (r: Result<bool>)
    ensures r == Success(true) ==> exists i | 0 <= i < |xs| :: test(xs[i]) == Success(true)
    ensures (forall i | 0 <= i < |xs| :: test(xs[i]).Success?) ==>
              r == Success(exists i | 0 <= i < |xs| :: test(xs[i]) == Success(true))
  {
    if |xs| == 0 then Success(false)
    else
      var h := test(xs[0]);
      var rest := AnyBy(test, xs[1..]);
      assert forall i | 1 <= i < |xs| :: xs[i] == xs[1..][i - 1];
      if h.Failure? then Failure(h.error)
      else if h.value then Success(true)
      else rest
  }

  /** `filtered_attributes(entity)` over the entity's attribute list: nothing when the
      `attributes` option is off or the entity is specialized, otherwise the attributes in
      at least one selected category, in order. */
  function FilteredAttributes(p: Parts, o: Options.Options, e: Entities.Entity, attrs: seq<Attributes.Attribute>): (r: Result<seq<Attributes.Attribute>>)
    ensures !On(o, "attributes") || Entities.Specialized(e) ==> r == Success([])
    ensures r.Success? && On(o, "attributes") && !Entities.Specialized(e) ==>
              forall x :: x in r.value <==> x in attrs && AnyCategory(p, x, Config.ToArray(Options.Get(o, "attributes"))) == Success(true)
    ensures r.Success? && On(o, "attributes") && !Entities.Specialized(e) ==>
              Seqs.Picks(r.value, attrs, Seqs.Positions(attrs, IsTrue(InCategories(p, Config.ToArray(Options.Get(o, "attributes"))))))
  {
    if !On(o, "attributes") || Entities.Specialized(e) then Success([])
    else
      var types := Config.ToArray(Options.Get(o, "attributes"));
      Seqs.FilterPicks(attrs, IsTrue(InCategories(p, types)));
      SelectBy(InCategories(p, types), attrs)
  }

  /** The category test `filtered_attributes` selects by. */
  function InCategories(p: Parts, types: seq<Options.Value>): Attributes.Attribute -> Result<bool> {
    (x: Attributes.Attribute) => AnyCategory(p, x, types)
  }

  /** The elements a raising test answers true for. */
  function IsTrue<T>(test: T -> Result<bool>): T -> bool {
    (x: T) => test(x) == Success(true)
  }

  /** `select` with a test that may raise: the elements whose test is true, in order,
      failing when some element's test fails. */
  function SelectBy<T(!new)>(test: T -> Result<bool>, xs: seq<T>): (r: Result<seq<T>>)
    ensures r.Success? ==> forall x :: x in r.value <==> x in xs && test(x) == Success(true)
    ensures r.Success? ==> |r.value| <= |xs|
    ensures r.Success? <==> forall i | 0 <= i < |xs| :: test(xs[i]).Success?
    ensures r.Success? ==> r.value == Seqs.Filter(xs, IsTrue(test))
  {
    if |xs| == 0 then Success([])
    else
      var head := test(xs[0]);
      var rest := SelectBy(test, xs[1..]);
      assert forall x :: x in xs <==> x == xs[0] || x in xs[1..] by { assert xs == [xs[0]] + xs[1..]; }
      assert forall i | 1 <= i < |xs| :: xs[i] == xs[1..][i - 1];
      if head.Failure? then Failure(head.error)
      else if rest.Failure? then rest
      else if head.value then Success([xs[0]] + rest.value)
      else rest
  }

  /** With `attributes` set to known categories, an attribute of a non-specialized entity
      is shown exactly when it is in one of them: `[:content]` shows the content columns,
      `[:primary_keys, :foreign_keys]` the keys. */
  lemma AttributesByCategory(p: Parts, o: Options.Options, e: Entities.Entity, attrs: seq<Attributes.Attribute>, x: Attributes.Attribute)
    requires On(o, "attributes") && !Entities.Specialized(e)
    requires forall t | t in Config.ToArray(Options.Get(o, "attributes")) :: CategoryOf(t) in Categories
    ensures FilteredAttributes(p, o, e, attrs).Success?
    ensures x in FilteredAttributes(p, o, e, attrs).value <==>
              x in attrs && exists t | t in Config.ToArray(Options.Get(o, "attributes")) :: Holds(p, x, CategoryOf(t)) == Success(true)
  {
    var types := Config.ToArray(Options.Get(o, "attributes"));
    forall i | 0 <= i < |attrs| ensures AnyCategory(p, attrs[i], types).Success? {
      KnownCategories(p, attrs[i], types);
    }
    KnownCategories(p, x, types);
  }

  lemma KnownCategories(p: Parts, y: Attributes.Attribute, types: seq<Options.Value>)
    requires forall t | t in types :: CategoryOf(t) in Categories
    ensures AnyCategory(p, y, types) == Success(exists t | t in types :: Holds(p, y, CategoryOf(t)) == Success(true))
  {
    AnyByKnown(CategoryTest(p, y), types);
  }

  lemma AnyByKnown<T>(test: T -> Result<bool>, xs: seq<T>)
    requires forall t | t in xs :: test(t).Success?
    ensures AnyBy(test, xs) == Success(exists t | t in xs :: test(t) == Success(true))
  {
    forall i | 0 <= i < |xs| ensures test(xs[i]).Success? {
      assert xs[i] in xs;
    }
    if exists t | t in xs :: test(t) == Success(true) {
      var t :| t in xs && test(t) == Success(true);
      var i :| 0 <= i < |xs| && xs[i] == t;
    }
  }

  // ---------------------------------------------------------------------------
  // recurse_into_relationships

  /** A relationship the walk follows: neither indirect nor recursive. */
  predicate Walkable(x: Relationships.Relationship) {
    !Relationships.Indirect(x) && !Relationships.Recursive(x)
  }

  /** The end of a relationship that is not `e` (the source, unless `e` is the source). */
  function Other(x: Relationships.Relationship, e: Entities.Entity): Option<Entities.Entity> {
    if x.source == Some(e) then x.destination else x.source
  }

  /** The entities the walk steps to from `e` over the given relationships, in order:
      the far end of each walkable relationship, when it is an entity that is not
      generalized. */
  function NeighboursOf(rs: seq<Relationships.Relationship>, e: Entities.Entity): (r: seq<Entities.Entity>)
    ensures forall n :: n in r <==> exists x | x in rs :: Walkable(x) && Other(x, e) == Some(n) && !Entities.Generalized(n)
  {
    if |rs| == 0 then []
    else
      var x := rs[0];
      var rest := NeighboursOf(rs[1..], e);
      assert forall y :: y in rs <==> y == x || y in rs[1..] by { assert rs == [x] + rs[1..]; }
      if Walkable(x) && Other(x, e).Some? && !Entities.Generalized(Other(x, e).value) then [Other(x, e).value] + rest
      else rest
  }

  function Neighbours(p: Parts, e: Entities.Entity): seq<Entities.Entity> {
    NeighboursOf(RelationshipsNamed(p, e.name), e)
  }

  /** Reference for the walk: `name` is the name of an entity reached from `e` in at least
      one and at most `steps` steps. */
  ghost predicate Reachable(p: Parts, e: Entities.Entity, name: string, steps: nat)
    decreases steps
  {
    steps > 0 && exists n | n in Neighbours(p, e) :: n.name == name || Reachable(p, n, name, steps - 1)
  }

  /** `recurse_into_relationships(entity, max_level, current_level)`: the names of the
      entities within `maxLevel - level` steps, each once. */
  function Recurse(p: Parts, e: Option<Entities.Entity>, maxLevel: int, level: int): (r: seq<string>)
    requires level <= maxLevel
    ensures Seqs.NoDup(r)
    ensures e.None? || level == maxLevel ==> r == []
    ensures forall name :: name in r <==> e.Some? && Reachable(p, e.value, name, maxLevel - level)
    decreases maxLevel - level, 0, 0
  {
    if e.None? then []
    else if maxLevel == level then []
    else
      var x := Expand(p, Neighbours(p, e.value), maxLevel, level + 1);
      var steps: nat := maxLevel - level;
      assert forall name :: Reachable(p, e.value, name, steps) <==> name in x by {
        forall name ensures Reachable(p, e.value, name, steps) <==> name in x {
          assert Reachable(p, e.value, name, steps) <==>
                 exists n | n in Neighbours(p, e.value) :: n.name == name || Reachable(p, n, name, steps - 1);
        }
      }
      Seqs.Dedup(x)
  }

  /** The walk's per-relationship results, flattened: each neighbour's name followed by
      the walk from that neighbour one level down. */
  function Expand(p: Parts, ns: seq<Entities.Entity>, maxLevel: int, level: int): (r: seq<string>)
    requires level <= maxLevel
    ensures forall name :: name in r <==> exists n | n in ns :: n.name == name || Reachable(p, n, name, maxLevel - level)
    decreases maxLevel - level, 1, |ns|
  {
    if |ns| == 0 then []
    else
      assert forall y :: y in ns <==> y == ns[0] || y in ns[1..] by { assert ns == [ns[0]] + ns[1..]; }
      [ns[0].name] + Recurse(p, Some(ns[0]), maxLevel, level) + Expand(p, ns[1..], maxLevel, level)
  }

  /** The walk lists only entities that are not generalized and are an end of some
      relationship of the domain. */
  lemma {:induction false} ReachableEnds(p: Parts, e: Entities.Entity, name: string, steps: nat)
    requires Reachable(p, e, name, steps)
    ensures IsEndNamed(p, name)
    decreases steps
  {
    var n :| n in Neighbours(p, e) && (n.name == name || Reachable(p, n, name, steps - 1));
    if n.name == name {
      NeighbourIsEnd(p, e, n);
    } else {
      ReachableEnds(p, n, name, steps - 1);
    }
  }

  lemma NeighbourIsEnd(p: Parts, e: Entities.Entity, n: Entities.Entity)
    requires n in Neighbours(p, e)
    ensures IsEndNamed(p, n.name)
  {
    var x :| x in RelationshipsNamed(p, e.name) && Walkable(x) && Other(x, e) == Some(n) && !Entities.Generalized(n);
    assert x in p.relationships;
  }

  /** `name` names an entity that is not generalized and is an end of some relationship. */
  ghost predicate IsEndNamed(p: Parts, name: string) {
    exists n: Entities.Entity, x | x in p.relationships ::
      n.name == name && !Entities.Generalized(n) && (x.source == Some(n) || x.destination == Some(n))
  }

  // ---------------------------------------------------------------------------
  // Widening `only`

  /** `domain.entity_by_name(class_name)`: the lookup is keyed by name strings, so an entry
      that is not a string finds nothing. */
  function LookupValue(p: Parts, v: Options.Value): Option<Entities.Entity> {
    if v.Str? then Entities.EntityByName(p.entities, v.s) else None
  }

  /** The walks from every entry of the list, concatenated. */
  function Reached(p: Parts, only: seq<Options.Value>, depth: int): (r: seq<string>)
    requires depth >= 0
    ensures forall name :: name in r <==> exists i | 0 <= i < |only| :: LookupValue(p, only[i]).Some? && Reachable(p, LookupValue(p, only[i]).value, name, depth)
  {
    if |only| == 0 then []
    else
      var rest := Reached(p, only[1..], depth);
      var head := Recurse(p, LookupValue(p, only[0]), depth, 0);
      ReachedStep(p, only, depth, head, rest);
      head + rest
  }

  lemma ReachedStep(p: Parts, only: seq<Options.Value>, depth: int, head: seq<string>, rest: seq<string>)
    requires |only| > 0 && depth >= 0
    requires forall name :: name in head <==> LookupValue(p, only[0]).Some? && Reachable(p, LookupValue(p, only[0]).value, name, depth)
    requires forall name :: name in rest <==> exists i | 0 <= i < |only[1..]| :: LookupValue(p, only[1..][i]).Some? && Reachable(p, LookupValue(p, only[1..][i]).value, name, depth)
    ensures forall name :: name in head + rest <==> exists i | 0 <= i < |only| :: LookupValue(p, only[i]).Some? && Reachable(p, LookupValue(p, only[i]).value, name, depth)
  {
    assert forall i | 1 <= i < |only| :: only[i] == only[1..][i - 1];
  }

  /** The `only` list widened by `only_recursion_depth`: the old entries, then the names the
      walk reaches from each, duplicates dropped. */
  function WidenOnly(p: Parts, only: seq<Options.Value>, depth: int): (r: seq<Options.Value>)
    requires depth >= 0
    ensures Seqs.NoDup(r)
    ensures forall v :: v in r <==> v in only || (v.Str? && exists i | 0 <= i < |only| :: LookupValue(p, only[i]).Some? && Reachable(p, LookupValue(p, only[i]).value, v.s, depth))
  {
    var reached := Reached(p, only, depth);
    StrsMembership(reached);
    Seqs.Dedup(only + Config.Strs(reached))
  }

  lemma StrsMembership(names: seq<string>)
    ensures forall v: Options.Value :: v in Config.Strs(names) <==> v.Str? && v.s in names
  {
    forall v: Options.Value | v.Str? && v.s in names ensures v in Config.Strs(names) {
      var i :| 0 <= i < |names| && names[i] == v.s;
      assert Config.Strs(names)[i] == v;
    }
  }

  /** A depth of zero adds nothing: the list is only deduplicated. */
  lemma WidenOnlyZero(p: Parts, only: seq<Options.Value>)
    ensures forall v :: v in WidenOnly(p, only, 0) <==> v in only
  {
  }

  /** `only_recursion_depth.to_i`: integers and strings convert; other values have no
      `to_i`. */
  function DepthOf(v: Options.Value): (r: Result<int>)
    ensures v.Int? ==> r == Success(v.i)
    ensures v.Str? ==> r == Success(Strings.ToI(v.s))
  {
    match v
    case Int(i) => Success(i)
    case Str(s) => Success(Strings.ToI(s))
    case Nil => Success(0)
    case _ => Failure("undefined method `to_i'")
  }

  /** A negative depth is not modelled: the walk's level never meets it. */
  predicate DepthAllowed(o: Options.Options) {
    var v := Options.Get(o, "only_recursion_depth");
    Present(v) && DepthOf(v).Success? ==> DepthOf(v).value >= 0
  }

  /** The first step of `generate`: the options with `only` widened when a recursion depth
      is present; `only` must then be an array. */
  function WidenedOptions(p: Parts, o: Options.Options): (r: Result<Options.Options>)
    requires DepthAllowed(o)
    ensures !Present(Options.Get(o, "only_recursion_depth")) ==> r == Success(o)
    ensures r.Success? && Present(Options.Get(o, "only_recursion_depth")) ==>
              DepthOf(Options.Get(o, "only_recursion_depth")).Success? && Options.Get(o, "only").List?
              && r.value == o["only" := Options.List(WidenOnly(p, Options.Get(o, "only").items, DepthOf(Options.Get(o, "only_recursion_depth")).value))]
  {
    var v := Options.Get(o, "only_recursion_depth");
    if !Present(v) then Success(o)
    else
      var depth := DepthOf(v);
      var only := Options.Get(o, "only");
      if depth.Failure? then Failure(depth.error)
      else if !only.List? then Failure("undefined method `each'")
      else Success(o["only" := Options.List(WidenOnly(p, only.items, depth.value))])
  }

  // ---------------------------------------------------------------------------
  // generate

  /** How entity attributes are listed: `sort` and `prepend_primary` from the global
      options, and `get_primary_key` for the column swapped to the front. */
  datatype Settings = Settings(sort: bool, prependPrimary: bool, primaryKey: Model -> string)

  function EntityAttributes(s: Settings, e: Entities.Entity): seq<Attributes.Attribute> {
    Domain.EntityAttributes(e, s.sort, s.prependPrimary, if e.model.Some? then s.primaryKey(e.model.value) else "")
  }

  /** What `generate` hands a format: each shown entity with its shown attributes, then
      the shown specializations, then the shown relationships. */
  datatype Output = Output(
    options: Options.Options,
    entities: seq<(Entities.Entity, seq<Attributes.Attribute>)>,
    specializations: seq<Specializations.Specialization>,
    relationships: seq<Relationships.Relationship>)

  /** Each entity paired with its filtered attributes; the first failure stops it. */
  function WithAttributes(p: Parts, o: Options.Options, s: Settings, es: seq<Entities.Entity>): (r: Result<seq<(Entities.Entity, seq<Attributes.Attribute>)>>)
    ensures r.Success? ==> |r.value| == |es|
    ensures r.Success? ==> forall i | 0 <= i < |es| :: r.value[i].0 == es[i] && FilteredAttributes(p, o, es[i], EntityAttributes(s, es[i])) == Success(r.value[i].1)
    ensures r.Failure? <==> exists e | e in es :: FilteredAttributes(p, o, e, EntityAttributes(s, e)).Failure?
  {
    PairWith((e: Entities.Entity) => FilteredAttributes(p, o, e, EntityAttributes(s, e)), es)
  }

  /** Each element paired with what `f` gives for it; the first failure stops it. */
  function PairWith<T, U>(f: T -> Result<U>, xs: seq<T>): (r: Result<seq<(T, U)>>)
    ensures r.Success? ==> |r.value| == |xs|
    ensures r.Success? ==> forall i | 0 <= i < |xs| :: r.value[i].0 == xs[i] && f(xs[i]) == Success(r.value[i].1)
    ensures r.Failure? <==> exists i | 0 <= i < |xs| :: f(xs[i]).Failure?
  {
    if |xs| == 0 then Success([])
    else
      var head := f(xs[0]);
      var rest := PairWith(f, xs[1..]);
      assert forall i | 1 <= i < |xs| :: xs[i] == xs[1..][i - 1];
      if head.Failure? then Failure(head.error)
      else if rest.Failure? then rest
      else Success([(xs[0], head.value)] + rest.value)
  }

  /** `generate`. */
  function Generate(p: Parts, o: Options.Options, s: Settings): (r: Result<Output>)
    requires DepthAllowed(o)
    ensures r.Success? ==> WidenedOptions(p, o) == Success(r.value.options)
    ensures r.Success? ==> (
              && FilteredEntities(p, r.value.options).Success?
              && |r.value.entities| == |FilteredEntities(p, r.value.options).value|
              && forall i | 0 <= i < |r.value.entities| :: r.value.entities[i].0 == FilteredEntities(p, r.value.options).value[i])
    ensures r.Success? ==> r.value.specializations == FilteredSpecializations(p, r.value.options)
    ensures r.Success? ==> r.value.relationships == FilteredRelationships(p, r.value.options)
    ensures r.Success? ==> forall i | 0 <= i < |r.value.entities| ::
              FilteredAttributes(p, r.value.options, r.value.entities[i].0, EntityAttributes(s, r.value.entities[i].0))
              == Success(r.value.entities[i].1)
    ensures r.Failure? <==>
              || WidenedOptions(p, o).Failure?
              || FilteredEntities(p, WidenedOptions(p, o).value).Failure?
              || exists e | e in FilteredEntities(p, WidenedOptions(p, o).value).value ::
                   FilteredAttributes(p, WidenedOptions(p, o).value, e, EntityAttributes(s, e)).Failure?
  {
    var widened := WidenedOptions(p, o);
    if widened.Failure? then Failure(widened.error)
    else
      var o2 := widened.value;
      var es := FilteredEntities(p, o2);
      if es.Failure? then Failure(es.error)
      else
        var withAttrs := WithAttributes(p, o2, s, es.value);
        if withAttrs.Failure? then Failure(withAttrs.error)
        else Success(Output(o2, withAttrs.value, FilteredSpecializations(p, o2), FilteredRelationships(p, o2)))
  }

  /** The callbacks `generate` runs, in order. */
  datatype Event =
    | EachEntity(entity: Entities.Entity, attributes: seq<Attributes.Attribute>)
    | EachSpecialization(specialization: Specializations.Specialization)
    | EachRelationship(relationship: Relationships.Relationship)

  function Phase(ev: Event): nat {
    match ev
    case EachEntity(_, _) => 0
    case EachSpecialization(_) => 1
    case EachRelationship(_) => 2
  }

  function Events(out: Output): (r: seq<Event>)
    ensures |r| == |out.entities| + |out.specializations| + |out.relationships|
  {
    Seqs.Map(out.entities, (x: (Entities.Entity, seq<Attributes.Attribute>)) => EachEntity(x.0, x.1))
    + Seqs.Map(out.specializations, (x: Specializations.Specialization) => EachSpecialization(x))
    + Seqs.Map(out.relationships, (x: Relationships.Relationship) => EachRelationship(x))
  }

  /** Every entity is visited before any specialization, and every specialization before
      any relationship. */
  lemma EventsOrdered(out: Output)
    ensures forall i, j | 0 <= i < j < |Events(out)| :: Phase(Events(out)[i]) <= Phase(Events(out)[j])
    ensures forall i | 0 <= i < |out.entities| :: Events(out)[i] == EachEntity(out.entities[i].0, out.entities[i].1)
  {
    var ev := Events(out);
    var a := |out.entities|;
    var b := a + |out.specializations|;
    assert forall i | 0 <= i < |ev| :: Phase(ev[i]) == (if i < a then 0 else if i < b then 1 else 2);
  }
}
