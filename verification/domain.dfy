/** The domain: the valid models among those given, their valid associations, and the
    entities, relationships and specializations built from them, with lookups by entity
    name and the warnings printed for what is ignored. */
module Domain {
  import opened Wrappers
  import opened Schema
  import Options
  import Entities
  import Relationships
  import Specializations
  import Attributes
  import Seqs
  import Strings

  /** A domain: the models it was given (each with its association reflections) and its
      options. Entities, relationships and specializations are pure functions of these,
      so computing each of them once, as the source memoises them, changes nothing. */
  datatype Domain = Domain(sourceModels: seq<Declared>, options: Options.Options)

  /** `Domain.new(models, options)`: the global defaults overridden by the given options. */
  function New(models: seq<Declared>, defaults: Options.Options, given: Options.Options): (d: Domain)
    ensures d.sourceModels == models
    ensures forall k :: Options.Get(d.options, k) == (if k in given then given[k] else Options.Get(defaults, k))
  {
    Domain(models, Options.Merge(defaults, given))
  }

  predicate Warn(d: Domain) {
    Options.Truthy(Options.Get(d.options, "warn"))
  }

  // ---------------------------------------------------------------------------
  // Models and associations

  /** `check_model_validity`: abstract, or backed by an existing table. */
  predicate ModelValid(m: Model) {
    m.abstractClass || m.tableExists
  }

  /** `check_habtm_model`: the join models Rails generates for has_and_belongs_to_many. */
  predicate HabtmModel(m: Model) {
    Strings.StartsWith(m.name, "HABTM_")
  }

  /** `models`: the valid models, without the generated join models, in declaration order. */
  function Models(d: Domain): (r: seq<Declared>)
    ensures forall x :: x in r <==> x in d.sourceModels && ModelValid(x.model) && !HabtmModel(x.model)
    ensures Seqs.Picks(r, d.sourceModels, Seqs.Positions(d.sourceModels, KeptModel))
  {
    var valid := (x: Declared) => ModelValid(x.model);
    var plain := (x: Declared) => !HabtmModel(x.model);
    Seqs.FilterFilter(d.sourceModels, valid, plain, KeptModel);
    Seqs.FilterPicks(d.sourceModels, KeptModel);
    Seqs.Filter(Seqs.Filter(d.sourceModels, valid), plain)
  }

  predicate KeptModel(x: Declared) {
    ModelValid(x.model) && !HabtmModel(x.model)
  }

  function EntitiesOf(d: Domain): seq<Entities.Entity> {
    Entities.FromModels(Models(d))
  }

  function EntityByName(d: Domain, name: string): Option<Entities.Entity> {
    Entities.EntityByName(EntitiesOf(d), name)
  }

  /** Why `check_association_validity` rejects an association, if it does: the error
      `check_validity!` raises; a polymorphic interface with no entity; a class that cannot
      be loaded; a class that is not an entity of the domain. */
  function AssociationError(es: seq<Entities.Entity>, a: Association): (r: Option<string>)
    ensures r.None? <==> a.validityError.None? && Relationships.Resolvable(a)
                         && Entities.EntityByName(es, Relationships.Target(a)).Some?
  {
    if a.validityError.Some? then a.validityError
    else if a.polymorphic then
      if Entities.EntityByName(es, a.className).Some? then None
      else Some("polymorphic interface " + a.className + " does not exist")
    else
      match a.klass
      case Failure(e) => Some(e)
      case Success(n) =>
        if Entities.EntityByName(es, n).Some? then None
        else Some("model " + n + " exists, but is not included in domain")
  }

  /** `associations`: the associations of the kept models that pass the validity check. */
  function AssociationsOf(d: Domain): (r: seq<Association>)
    ensures forall a :: a in r <==> a in AllAssociations(Models(d)) && AssociationError(EntitiesOf(d), a).None?
    ensures Seqs.Picks(r, AllAssociations(Models(d)), Seqs.Positions(AllAssociations(Models(d)), Accepted(EntitiesOf(d))))
  {
    var es := EntitiesOf(d);
    Seqs.FilterPicks(AllAssociations(Models(d)), Accepted(es));
    Seqs.Filter(AllAssociations(Models(d)), Accepted(es))
  }

  /** The test `check_association_validity` passes. */
  function Accepted(es: seq<Entities.Entity>): Association -> bool {
    (a: Association) => AssociationError(es, a).None?
  }

  /** A kept association names its target: the target is an entity of the domain. */
  lemma AssociationsResolvable(d: Domain)
    ensures Relationships.AllResolvable(AssociationsOf(d))
    ensures forall a | a in AssociationsOf(d) :: Relationships.Resolvable(a) && EntityByName(d, Relationships.Target(a)).Some?
  {
  }

  function RelationshipsOf(d: Domain): seq<Relationships.Relationship> {
    AssociationsResolvable(d);
    Relationships.FromAssociations(AssociationsOf(d), EntitiesOf(d))
  }

  function SpecializationsOf(d: Domain): seq<Specializations.Specialization> {
    Specializations.FromModels(Models(d))
  }

  // ---------------------------------------------------------------------------
  // Warnings

  function ModelMessage(m: Model): string {
    "Ignoring invalid model " + m.name + " (table " + m.tableName + " does not exist)"
  }

  /** `association_description`: the inspected name (a Symbol) and the declaring model. */
  function AssociationDescription(a: Association): string {
    ":" + a.name + " on " + a.owner.name
  }

  function AssociationMessage(a: Association, error: string): string {
    "Ignoring invalid association " + AssociationDescription(a) + " (" + error + ")"
  }

  /** One message per invalid model, in order. */
  function ModelMessages(ds: seq<Declared>): (r: seq<string>)
    ensures forall msg :: msg in r <==> exists x | x in ds :: !ModelValid(x.model) && msg == ModelMessage(x.model)
  {
    if |ds| == 0 then []
    else
      assert forall x :: x in ds <==> x == ds[0] || x in ds[1..] by { assert ds == [ds[0]] + ds[1..]; }
      (if ModelValid(ds[0].model) then [] else [ModelMessage(ds[0].model)]) + ModelMessages(ds[1..])
  }

  /** One message per rejected association, in order. */
  function AssociationMessages(es: seq<Entities.Entity>, assocs: seq<Association>): (r: seq<string>)
    ensures forall msg :: msg in r <==> exists a | a in assocs :: AssociationError(es, a).Some? && msg == AssociationMessage(a, AssociationError(es, a).value)
  {
    if |assocs| == 0 then []
    else
      var a := assocs[0];
      assert forall x :: x in assocs <==> x == a || x in assocs[1..] by { assert assocs == [a] + assocs[1..]; }
      var e := AssociationError(es, a);
      (if e.Some? then [AssociationMessage(a, e.value)] else []) + AssociationMessages(es, assocs[1..])
  }

  predicate InvalidDeclared(x: Declared) {
    !ModelValid(x.model)
  }

  function DeclaredMessage(x: Declared): string {
    ModelMessage(x.model)
  }

  /** The model messages are those of the invalid models, one each, in order. */
  lemma {:induction false} ModelMessagesInOrder(ds: seq<Declared>)
    ensures ModelMessages(ds) == Seqs.Map(Seqs.Filter(ds, InvalidDeclared), DeclaredMessage)
  {
    if |ds| > 0 {
      ModelMessagesInOrder(ds[1..]);
      if InvalidDeclared(ds[0]) {
        Seqs.MapCons(ds[0], Seqs.Filter(ds[1..], InvalidDeclared), DeclaredMessage);
      }
    }
  }

  /** `check_association_validity` is false. */
  function Rejected(es: seq<Entities.Entity>): Association -> bool {
    (a: Association) => AssociationError(es, a).Some?
  }

  function RejectionMessage(es: seq<Entities.Entity>): Association -> string {
    (a: Association) => if AssociationError(es, a).Some? then AssociationMessage(a, AssociationError(es, a).value) else ""
  }

  /** The association messages are those of the rejected associations, one each, in order. */
  lemma {:induction false} AssociationMessagesInOrder(es: seq<Entities.Entity>, assocs: seq<Association>)
    ensures AssociationMessages(es, assocs) == Seqs.Map(Seqs.Filter(assocs, Rejected(es)), RejectionMessage(es))
  {
    if |assocs| > 0 {
      var a := assocs[0];
      var rest := Seqs.Filter(assocs[1..], Rejected(es));
      AssociationMessagesInOrder(es, assocs[1..]);
      if AssociationError(es, a).Some? {
        assert Seqs.Filter(assocs, Rejected(es)) == [a] + rest;
        Seqs.MapCons(a, rest, RejectionMessage(es));
      } else {
        assert Seqs.Filter(assocs, Rejected(es)) == rest;
      }
    }
  }

  /** `warn`: what is printed, "Warning: " and the message per line, and only with the
      `warn` option. Models are checked (all of them, join models included) before the
      associations of the kept ones. */
  function Warnings(d: Domain): (r: seq<string>)
    ensures !Warn(d) ==> r == []
    ensures Warn(d) ==> |r| == |ModelMessages(d.sourceModels)| + |AssociationMessages(EntitiesOf(d), AllAssociations(Models(d)))|
    ensures Warn(d) ==> forall i | 0 <= i < |r| ::
              r[i] == "Warning: " + (ModelMessages(d.sourceModels) + AssociationMessages(EntitiesOf(d), AllAssociations(Models(d))))[i]
  {
    if Warn(d) then
      Seqs.Map(ModelMessages(d.sourceModels) + AssociationMessages(EntitiesOf(d), AllAssociations(Models(d))),
               (msg: string) => "Warning: " + msg)
    else []
  }

  /** A warning is printed exactly when warnings are on and some model or association is
      ignored. */
  lemma WarningsIff(d: Domain)
    ensures |Warnings(d)| > 0 <==>
              Warn(d) && ((exists x | x in d.sourceModels :: !ModelValid(x.model))
                          || (exists a | a in AllAssociations(Models(d)) :: AssociationError(EntitiesOf(d), a).Some?))
  {
    ModelMessagesNonEmpty(d.sourceModels);
    AssociationMessagesNonEmpty(EntitiesOf(d), AllAssociations(Models(d)));
  }

  lemma ModelMessagesNonEmpty(ds: seq<Declared>)
    ensures |ModelMessages(ds)| > 0 <==> exists x | x in ds :: !ModelValid(x.model)
  {
    var mm := ModelMessages(ds);
    if exists x | x in ds :: !ModelValid(x.model) {
      var x :| x in ds && !ModelValid(x.model);
      assert ModelMessage(x.model) in mm;
    }
    if |mm| > 0 {
      assert mm[0] in mm;
    }
  }

  lemma AssociationMessagesNonEmpty(es: seq<Entities.Entity>, assocs: seq<Association>)
    ensures |AssociationMessages(es, assocs)| > 0 <==> exists a | a in assocs :: AssociationError(es, a).Some?
  {
    var am := AssociationMessages(es, assocs);
    if exists a | a in assocs :: AssociationError(es, a).Some? {
      var a :| a in assocs && AssociationError(es, a).Some?;
      assert AssociationMessage(a, AssociationError(es, a).value) in am;
    }
    if |am| > 0 {
      assert am[0] in am;
    }
  }

  // ---------------------------------------------------------------------------
  // Lookups by entity name

  /** `mapping[name] or []`. */
  function Lookup<T>(m: map<string, seq<T>>, name: string): seq<T> {
    if name in m then m[name] else []
  }

  /** The `*_mapping` tables: each element appended under its first end's name, then under
      its second end's name. */
  function IndexByEnds<T>(xs: seq<T>, first: T -> string, second: T -> string): map<string, seq<T>> {
    if |xs| == 0 then map[]
    else
      var x := xs[|xs| - 1];
      var m := IndexByEnds(xs[..|xs| - 1], first, second);
      var m1 := m[first(x) := Lookup(m, first(x)) + [x]];
      m1[second(x) := Lookup(m1, second(x)) + [x]]
  }

  /** Reference: the elements with an end named `name`, in order, an element with both ends
      so named listed twice. */
  function Touching<T(!new)>(xs: seq<T>, first: T -> string, second: T -> string, name: string): (r: seq<T>)
    ensures forall x :: x in r <==> x in xs && (first(x) == name || second(x) == name)
  {
    if |xs| == 0 then []
    else
      var x := xs[|xs| - 1];
      assert forall y :: y in xs <==> y in xs[..|xs| - 1] || y == x by { assert xs == xs[..|xs| - 1] + [x]; }
      Touching(xs[..|xs| - 1], first, second, name)
      + (if first(x) == name then [x] else [])
      + (if second(x) == name then [x] else [])
  }

  lemma {:induction false} IndexByEndsTouching<T(!new)>(xs: seq<T>, first: T -> string, second: T -> string, name: string)
    ensures Lookup(IndexByEnds(xs, first, second), name) == Touching(xs, first, second, name)
  {
    if |xs| > 0 {
      IndexByEndsTouching(xs[..|xs| - 1], first, second, name);
    }
  }

  lemma {:induction false} TouchingNone<T(!new)>(xs: seq<T>, first: T -> string, second: T -> string, name: string)
    requires forall i | 0 <= i < |xs| :: first(xs[i]) != name && second(xs[i]) != name
    ensures Touching(xs, first, second, name) == []
  {
    if |xs| > 0 {
      TouchingNone(xs[..|xs| - 1], first, second, name);
    }
  }

  /** Each element is listed once per end with that name. */
  lemma {:induction false} TouchingCount<T(!new)>(xs: seq<T>, first: T -> string, second: T -> string, name: string, x: T)
    ensures multiset(Touching(xs, first, second, name))[x]
            == (if first(x) == name then multiset(xs)[x] else 0) + (if second(x) == name then multiset(xs)[x] else 0)
  {
    if |xs| > 0 {
      var p := xs[..|xs| - 1];
      var y := xs[|xs| - 1];
      TouchingCount(p, first, second, name, x);
      var t := Touching(p, first, second, name);
      var u := if first(y) == name then [y] else [];
      var v := if second(y) == name then [y] else [];
      assert Touching(xs, first, second, name) == t + u + v;
      Seqs.LastSplit(xs);
      Seqs.MultisetSnoc(p, y, x);
      assert multiset(t + u + v)[x] == multiset(t)[x] + multiset(u)[x] + multiset(v)[x];
      assert multiset(u)[x] == if first(x) == name then multiset([y])[x] else 0;
      assert multiset(v)[x] == if second(x) == name then multiset([y])[x] else 0;
    }
  }

  function SourceName(r: Relationships.Relationship): string {
    if r.source.Some? then r.source.value.name else ""
  }

  function DestinationName(r: Relationships.Relationship): string {
    if r.destination.Some? then r.destination.value.name else ""
  }

  /** Both ends of every relationship are entities; the source reads `name` off both and
      fails otherwise. */
  predicate EndsResolve(rs: seq<Relationships.Relationship>) {
    forall r | r in rs :: r.source.Some? && r.destination.Some?
  }

  /** `relationships_by_entity_name`: the relationships with an end of that name, in
      relationship order; a recursive one twice; none for an unknown name. */
  function RelationshipsByEntityName(d: Domain, name: string): (r: seq<Relationships.Relationship>)
    requires EndsResolve(RelationshipsOf(d))
    ensures r == Touching(RelationshipsOf(d), SourceName, DestinationName, name)
    ensures forall x :: x in r <==> x in RelationshipsOf(d) && (x.source.value.name == name || x.destination.value.name == name)
  {
    IndexByEndsTouching(RelationshipsOf(d), SourceName, DestinationName, name);
    TouchingByName(RelationshipsOf(d), name);
    Lookup(IndexByEnds(RelationshipsOf(d), SourceName, DestinationName), name)
  }

  lemma TouchingByName(rs: seq<Relationships.Relationship>, name: string)
    requires EndsResolve(rs)
    ensures forall x :: x in Touching(rs, SourceName, DestinationName, name) <==> x in rs && (x.source.value.name == name || x.destination.value.name == name)
  {
  }

  function GeneralizedName(s: Specializations.Specialization): string {
    s.generalized
  }

  function SpecializedName(s: Specializations.Specialization): string {
    s.specialized
  }

  /** `specializations_by_entity_name`: the specializations with that name as generalized
      or specialized end. */
  function SpecializationsByEntityName(d: Domain, name: string): (r: seq<Specializations.Specialization>)
    ensures r == Touching(SpecializationsOf(d), GeneralizedName, SpecializedName, name)
    ensures forall s :: s in r <==> s in SpecializationsOf(d) && (s.generalized == name || s.specialized == name)
  {
    IndexByEndsTouching(SpecializationsOf(d), GeneralizedName, SpecializedName, name);
    Lookup(IndexByEnds(SpecializationsOf(d), GeneralizedName, SpecializedName), name)
  }

  /** A recursive relationship is listed twice under its entity's name. */
  lemma RecursiveListedTwice(d: Domain, r: Relationships.Relationship)
    requires EndsResolve(RelationshipsOf(d))
    requires r in RelationshipsOf(d) && Relationships.Recursive(r)
    ensures multiset(RelationshipsByEntityName(d, r.source.value.name))[r] == 2 * multiset(RelationshipsOf(d))[r]
  {
    TouchingCount(RelationshipsOf(d), SourceName, DestinationName, r.source.value.name, r);
  }

  /** A name no relationship end has gets the empty list. */
  lemma UnknownNameNoRelationships(d: Domain, name: string)
    requires EndsResolve(RelationshipsOf(d))
    requires forall r | r in RelationshipsOf(d) :: r.source.value.name != name && r.destination.value.name != name
    ensures RelationshipsByEntityName(d, name) == []
  {
    var rs := RelationshipsOf(d);
    forall i | 0 <= i < |rs| ensures SourceName(rs[i]) != name && DestinationName(rs[i]) != name {
      assert rs[i] in rs;
    }
    TouchingNone(rs, SourceName, DestinationName, name);
  }

  // ---------------------------------------------------------------------------
  // When relationship ends resolve

  /** Every association a model lists is declared by that model. */
  predicate OwnersDeclare(ds: seq<Declared>) {
    forall i, a | 0 <= i < |ds| && a in ds[i].associations :: a.owner.name == ds[i].model.name
  }

  lemma NamedEntityFound(es: seq<Entities.Entity>, e: Entities.Entity)
    requires e in es
    ensures Entities.EntityByName(es, e.name).Some?
  {
    var i :| 0 <= i < |es| && es[i] == e;
  }

  /** The owner of a kept association is an entity: its polymorphic interface, or the kept
      model that declares it. */
  lemma OwnerResolves(d: Domain, a: Association)
    requires OwnersDeclare(d.sourceModels) && a in AllAssociations(Models(d))
    ensures EntityByName(d, Relationships.Owner(a)).Some?
  {
    var ms := Models(d);
    if a.asName.Some? {
      assert a.asName.value in Entities.InterfaceNames(ms);
      InterfaceEntityFound(ms, a.asName.value);
    } else {
      var i :| 0 <= i < |ms| && a in ms[i].associations;
      assert ms[i] in d.sourceModels;
      assert a.owner.name == ms[i].model.name;
      ModelEntityFound(ms, i);
    }
  }

  lemma InterfaceEntityFound(ms: seq<Declared>, n: string)
    requires n in Entities.InterfaceNames(ms)
    ensures Entities.EntityByName(Entities.FromModels(ms), n).Some?
  {
    Entities.InterfacesSynthesizedOnce(ms);
    assert Entities.Entity(n, None) in multiset(Entities.FromModels(ms));
    NamedEntityFound(Entities.FromModels(ms), Entities.Entity(n, None));
  }

  lemma ModelEntityFound(ms: seq<Declared>, i: nat)
    requires i < |ms|
    ensures Entities.EntityByName(Entities.FromModels(ms), ms[i].model.name).Some?
  {
    Entities.ModelsHaveEntities(ms);
    NamedEntityFound(Entities.FromModels(ms), Entities.Entity(ms[i].model.name, Some(ms[i].model)));
  }

  lemma RelationshipEndsResolve(d: Domain, i: nat)
    requires OwnersDeclare(d.sourceModels) && i < |RelationshipsOf(d)|
    ensures RelationshipsOf(d)[i].source.Some? && RelationshipsOf(d)[i].destination.Some?
  {
    var assocs := AssociationsOf(d);
    var es := EntitiesOf(d);
    AssociationsResolvable(d);
    var rs := Relationships.FromAssociations(assocs, es);
    assert RelationshipsOf(d) == rs;
    Relationships.FromAssociationsEnds(assocs, es, i);
    var a :| a in assocs && Relationships.Resolvable(a) && Relationships.EndsOf(rs[i], es, a);
    OwnerResolves(d, a);
    EndsFound(rs[i], es, a);
  }

  lemma EndsFound(r: Relationships.Relationship, es: seq<Entities.Entity>, a: Association)
    requires Relationships.Resolvable(a) && Relationships.EndsOf(r, es, a)
    requires Entities.EntityByName(es, Relationships.Owner(a)).Some?
    requires Entities.EntityByName(es, Relationships.Target(a)).Some?
    ensures r.source.Some? && r.destination.Some?
  {
  }

  /** When every association is declared by the model listing it, both ends of every
      relationship are entities. */
  lemma OwnersDeclareEndsResolve(d: Domain)
    requires OwnersDeclare(d.sourceModels)
    ensures EndsResolve(RelationshipsOf(d))
  {
    var rs := RelationshipsOf(d);
    forall r | r in rs ensures r.source.Some? && r.destination.Some? {
      var i :| 0 <= i < |rs| && rs[i] == r;
      RelationshipEndsResolve(d, i);
    }
  }

  // ---------------------------------------------------------------------------
  // Entity queries that go through the domain

  /** `Entity#connected?`. */
  predicate Connected(d: Domain, e: Entities.Entity)
    requires EndsResolve(RelationshipsOf(d))
  {
    |RelationshipsByEntityName(d, e.name)| > 0
  }

  /** `Entity#disconnected?`. */
  predicate Disconnected(d: Domain, e: Entities.Entity)
    requires EndsResolve(RelationshipsOf(d))
  {
    |RelationshipsByEntityName(d, e.name)| == 0
  }

  /** Connected exactly when some relationship has the entity's name at one end, and
      disconnected exactly when not connected. */
  lemma ConnectedIff(d: Domain, e: Entities.Entity)
    requires EndsResolve(RelationshipsOf(d))
    ensures Connected(d, e) <==> exists r | r in RelationshipsOf(d) :: r.source.value.name == e.name || r.destination.value.name == e.name
    ensures Disconnected(d, e) <==> !Connected(d, e)
  {
    var rs := RelationshipsByEntityName(d, e.name);
    if |rs| > 0 {
      assert rs[0] in rs;
    }
  }

  /** `Entity#children`: the specialized end of each specialization listed under the
      entity's name, looked up by name. */
  function Children(d: Domain, e: Entities.Entity): (r: seq<Option<Entities.Entity>>)
    ensures |r| == |SpecializationsByEntityName(d, e.name)|
    ensures forall i | 0 <= i < |r| :: r[i] == EntityByName(d, SpecializationsByEntityName(d, e.name)[i].specialized)
  {
    var es := EntitiesOf(d);
    Seqs.Map(SpecializationsByEntityName(d, e.name), (s: Specializations.Specialization) => Entities.EntityByName(es, s.specialized))
  }

  /** `Entity#attributes`: none for a generalized entity, otherwise the attributes of its
      model; `sort`, `prependPrimary` and `primaryKey` are as for `Attributes.FromModel`. */
  function EntityAttributes(e: Entities.Entity, sort: bool, prependPrimary: bool, primaryKey: string): (r: seq<Attributes.Attribute>)
    ensures Entities.Generalized(e) ==> r == []
    ensures !Entities.Generalized(e) ==> multiset(r) == multiset(Attributes.OfColumns(e.model.value, e.model.value.columns))
    ensures !Entities.Generalized(e) && !sort && !prependPrimary ==> r == Attributes.OfColumns(e.model.value, e.model.value.columns)
    ensures !Entities.Generalized(e) && sort && !prependPrimary ==> Seqs.SortedBy(Attributes.AttributeLe, r)
    ensures !Entities.Generalized(e) && prependPrimary
            && (exists i | 0 <= i < |e.model.value.columns| :: e.model.value.columns[i].name == primaryKey)
            ==> |r| > 0 && Attributes.Name(r[0]) == primaryKey
  {
    if Entities.Generalized(e) then [] else Attributes.FromModel(e.model.value, sort, prependPrimary, primaryKey)
  }

  /** The foreign keys of every association in a relationship with an end of that name. */
  function ForeignKeysOf(rs: seq<Relationships.Relationship>): (r: seq<string>)
    ensures forall k :: k in r <==> exists i, a | 0 <= i < |rs| && a in Relationships.AllOf(rs[i]) :: a.foreignKey == k
  {
    if |rs| == 0 then []
    else
      var here := Seqs.Map(Relationships.AllOf(rs[0]), (a: Association) => a.foreignKey);
      var rest := ForeignKeysOf(rs[1..]);
      assert forall k :: k in here <==> exists a | a in Relationships.AllOf(rs[0]) :: a.foreignKey == k by {
        forall k | k in here ensures exists a | a in Relationships.AllOf(rs[0]) :: a.foreignKey == k {
          var j :| 0 <= j < |here| && here[j] == k;
          assert Relationships.AllOf(rs[0])[j] in Relationships.AllOf(rs[0]);
        }
        forall k | exists a | a in Relationships.AllOf(rs[0]) :: a.foreignKey == k ensures k in here {
          var a :| a in Relationships.AllOf(rs[0]) && a.foreignKey == k;
          var j :| 0 <= j < |Relationships.AllOf(rs[0])| && Relationships.AllOf(rs[0])[j] == a;
          assert here[j] == k;
        }
      }
      forall k | exists i, a | 0 <= i < |rs| && a in Relationships.AllOf(rs[i]) :: a.foreignKey == k
        ensures k in here || k in rest
      {
        var i, a :| 0 <= i < |rs| && a in Relationships.AllOf(rs[i]) && a.foreignKey == k;
        if i > 0 {
          assert rs[1..][i - 1] == rs[i];
        }
      }
      here + rest
  }

  /** The foreign keys `Attribute#foreign_key?` compares against. */
  function ForeignKeys(d: Domain, modelName: string): seq<string>
    requires EndsResolve(RelationshipsOf(d))
  {
    ForeignKeysOf(RelationshipsByEntityName(d, modelName))
  }

  /** An attribute is a foreign key exactly when its name is the foreign key of an
      association in a relationship touching its model, whichever side declared it. */
  lemma ForeignKeyIff(d: Domain, a: Attributes.Attribute)
    requires EndsResolve(RelationshipsOf(d))
    ensures Attributes.IsForeignKey(a, ForeignKeys(d, a.model.name)) <==> DeclaredForeignKey(d, a)
  {
    if Attributes.IsForeignKey(a, ForeignKeys(d, a.model.name)) {
      ForeignKeyFound(d, a);
    }
    if DeclaredForeignKey(d, a) {
      var r, b :| r in RelationshipsOf(d) && b in Relationships.AllOf(r)
                  && (r.source.value.name == a.model.name || r.destination.value.name == a.model.name) && b.foreignKey == Attributes.Name(a);
      ForeignKeyListed(d, a, r, b);
    }
  }

  /** Some association of a relationship touching the attribute's model, on either side,
      has the attribute's name as its foreign key. */
  ghost predicate DeclaredForeignKey(d: Domain, a: Attributes.Attribute)
    requires EndsResolve(RelationshipsOf(d))
  {
    exists r, b | r in RelationshipsOf(d) && b in Relationships.AllOf(r) ::
      (r.source.value.name == a.model.name || r.destination.value.name == a.model.name)
      && b.foreignKey == Attributes.Name(a)
  }

  lemma ForeignKeyFound(d: Domain, a: Attributes.Attribute)
    requires EndsResolve(RelationshipsOf(d))
    requires Attributes.IsForeignKey(a, ForeignKeys(d, a.model.name))
    ensures DeclaredForeignKey(d, a)
  {
    var rs := RelationshipsByEntityName(d, a.model.name);
    var i, b :| 0 <= i < |rs| && b in Relationships.AllOf(rs[i]) && b.foreignKey == Attributes.Name(a);
    assert rs[i] in rs;
  }

  lemma ForeignKeyListed(d: Domain, a: Attributes.Attribute, r: Relationships.Relationship, b: Association)
    requires EndsResolve(RelationshipsOf(d))
    requires r in RelationshipsOf(d) && b in Relationships.AllOf(r)
    requires r.source.value.name == a.model.name || r.destination.value.name == a.model.name
    requires b.foreignKey == Attributes.Name(a)
    ensures Attributes.IsForeignKey(a, ForeignKeys(d, a.model.name))
  {
    var rs := RelationshipsByEntityName(d, a.model.name);
    assert r in rs;
    var i :| 0 <= i < |rs| && rs[i] == r;
  }
}
