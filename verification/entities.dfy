/** Entities: one per model, plus one generalized entity per polymorphic interface named by
    an `:as` option. */
module Entities {
  import opened Wrappers
  import opened Schema
  import Seqs
  import Strings

  /** An entity. Concrete entities carry their model; an entity synthesized from a
      polymorphic interface has none. */
  datatype Entity = Entity(name: string, model: Option<Model>)

  /** `generalized?`: no model (a polymorphic interface) or an abstract class. */
  function Generalized(e: Entity): (b: bool)
    ensures e.model.None? ==> b
    ensures e.model.Some? ==> (b <==> e.model.value.abstractClass)
  {
    e.model.None? || e.model.value.abstractClass
  }

  /** `specialized?`: a model stored in its parent's table (single-table inheritance). */
  function Specialized(e: Entity): (b: bool)
    ensures b ==> e.model.Some?
    ensures e.model.Some? ==> (b <==> !e.model.value.descendsFromActiveRecord)
  {
    e.model.Some? && !e.model.value.descendsFromActiveRecord
  }

  /** `virtual?` (alias `abstract?`): no table of its own. */
  function Virtual(e: Entity): (b: bool)
    ensures b <==> e.model.None? || e.model.value.abstractClass || !e.model.value.descendsFromActiveRecord
  {
    Generalized(e) || Specialized(e)
  }

  /** `Entity#<=>`: by name alone. */
  predicate EntityLe(a: Entity, b: Entity) {
    Strings.Le(a.name, b.name)
  }

  lemma EntityLeTotalPreorder()
    ensures Seqs.TotalPreorder(EntityLe)
  {
    forall a: Entity, b: Entity ensures EntityLe(a, b) || EntityLe(b, a) {
      Strings.LeTotal(a.name, b.name);
    }
    forall a: Entity, b: Entity, c: Entity | EntityLe(a, b) && EntityLe(b, c) ensures EntityLe(a, c) {
      Strings.LeTransitive(a.name, b.name, c.name);
    }
  }

  /** `concrete_from_models`: one entity per model, named after it. */
  function Concrete(models: seq<Model>): (r: seq<Entity>)
    ensures |r| == |models|
    ensures forall i | 0 <= i < |r| :: r[i] == Entity(models[i].name, Some(models[i]))
  {
    Seqs.Map(models, (m: Model) => Entity(m.name, Some(m)))
  }

  /** The classified `:as` option of every association that has one, in order, repeats kept. */
  function AsNames(assocs: seq<Association>): (r: seq<string>)
    ensures forall n :: n in r <==> exists a | a in assocs :: a.asName == Some(n)
  {
    if |assocs| == 0 then []
    else
      var rest := AsNames(assocs[1..]);
      assert forall a :: a in assocs <==> a == assocs[0] || a in assocs[1..] by {
        assert assocs == [assocs[0]] + assocs[1..];
      }
      (if assocs[0].asName.Some? then [assocs[0].asName.value] else []) + rest
  }

  /** The polymorphic interface names, each once, in order of first mention. */
  function InterfaceNames(ds: seq<Declared>): (r: seq<string>)
    ensures Seqs.NoDup(r)
    ensures forall n :: n in r <==> exists a | a in AllAssociations(ds) :: a.asName == Some(n)
  {
    Seqs.Dedup(AsNames(AllAssociations(ds)))
  }

  /** `abstract_from_models`: one model-less entity per polymorphic interface, looking at
      every association of the given models, valid or not. */
  function Abstract(ds: seq<Declared>): (r: seq<Entity>)
    ensures |r| == |InterfaceNames(ds)|
    ensures forall i | 0 <= i < |r| :: r[i] == Entity(InterfaceNames(ds)[i], None)
  {
    Seqs.Map(InterfaceNames(ds), (n: string) => Entity(n, None))
  }

  function Models(ds: seq<Declared>): (r: seq<Model>)
    ensures |r| == |ds| && forall i | 0 <= i < |ds| :: r[i] == ds[i].model
  {
    Seqs.Map(ds, (d: Declared) => d.model)
  }

  /** `Entity.from_models`: the concrete and the synthesized entities, ordered by name. */
  function FromModels(ds: seq<Declared>): (r: seq<Entity>)
    ensures multiset(r) == multiset(Concrete(Models(ds)) + Abstract(ds))
    ensures Seqs.SortedBy(EntityLe, r)
  {
    EntityLeTotalPreorder();
    Seqs.Sort(Concrete(Models(ds)) + Abstract(ds), EntityLe)
  }

  /** Every model has its entity. */
  lemma ModelsHaveEntities(ds: seq<Declared>)
    ensures forall i | 0 <= i < |ds| :: Entity(ds[i].model.name, Some(ds[i].model)) in FromModels(ds)
  {
    var c := Concrete(Models(ds));
    var a := Abstract(ds);
    forall i | 0 <= i < |ds| ensures Entity(ds[i].model.name, Some(ds[i].model)) in FromModels(ds) {
      assert (c + a)[i] == c[i];
      assert c[i] in multiset(c + a);
    }
  }

  /** Every polymorphic interface has exactly one entity, even when several associations
      name it. */
  lemma InterfacesSynthesizedOnce(ds: seq<Declared>)
    ensures forall n | n in InterfaceNames(ds) :: multiset(FromModels(ds))[Entity(n, None)] == 1
  {
    var c := Concrete(Models(ds));
    var a := Abstract(ds);
    var names := InterfaceNames(ds);
    forall n | n in names ensures multiset(FromModels(ds))[Entity(n, None)] == 1 {
      var k :| 0 <= k < |names| && names[k] == n;
      assert Entity(n, None) !in c;
      MultiplicityOne(names, k);
      assert a == Seqs.Map(names, (n: string) => Entity(n, None));
    }
  }

  /** There is nothing but model entities and interface entities. */
  lemma EntitiesFromModelsOnly(ds: seq<Declared>)
    ensures forall e | e in FromModels(ds) ::
              (e.model.Some? && e.name == e.model.value.name && exists i | 0 <= i < |ds| :: ds[i].model == e.model.value)
              || (e.model.None? && e.name in InterfaceNames(ds))
  {
    forall e | e in FromModels(ds)
      ensures (e.model.Some? && e.name == e.model.value.name && exists i | 0 <= i < |ds| :: ds[i].model == e.model.value)
              || (e.model.None? && e.name in InterfaceNames(ds))
    {
      FromModelsParts(ds, e);
      if e in Concrete(Models(ds)) {
        ConcreteOrigin(ds, e);
      } else {
        AbstractOrigin(ds, e);
      }
    }
  }

  lemma FromModelsParts(ds: seq<Declared>, e: Entity)
    requires e in FromModels(ds)
    ensures e in Concrete(Models(ds)) || e in Abstract(ds)
  {
    assert e in multiset(Concrete(Models(ds)) + Abstract(ds));
  }

  lemma ConcreteOrigin(ds: seq<Declared>, e: Entity)
    requires e in Concrete(Models(ds))
    ensures e.model.Some? && e.name == e.model.value.name && exists i | 0 <= i < |ds| :: ds[i].model == e.model.value
  {
    var c := Concrete(Models(ds));
    var i :| 0 <= i < |c| && c[i] == e;
    assert ds[i].model == e.model.value;
  }

  lemma AbstractOrigin(ds: seq<Declared>, e: Entity)
    requires e in Abstract(ds)
    ensures e.model.None? && e.name in InterfaceNames(ds)
  {
    var a := Abstract(ds);
    var i :| 0 <= i < |a| && a[i] == e;
    assert e.name == InterfaceNames(ds)[i];
  }

  /** In the synthesized entities, the name at position `k` of a duplicate-free list occurs
      exactly once. */
  lemma MultiplicityOne(names: seq<string>, k: int)
    requires Seqs.NoDup(names) && 0 <= k < |names|
    ensures multiset(Seqs.Map(names, (n: string) => Entity(n, None)))[Entity(names[k], None)] == 1
  {
    var es := Seqs.Map(names, (n: string) => Entity(n, None));
    forall i, j | 0 <= i < j < |es| ensures es[i] != es[j] {
      assert es[i].name == names[i] && es[j].name == names[j];
    }
    assert es[k] == Entity(names[k], None);
    Seqs.NoDupOnce(es, es[k]);
  }

  /** `domain.entity_by_name(name)`: the entity mapping is built in order, so of several
      entities with the same name the last one wins; nil when there is none. */
  function EntityByName(es: seq<Entity>, name: string): (r: Option<Entity>)
    ensures r.Some? <==> exists i | 0 <= i < |es| :: es[i].name == name
    ensures r.Some? ==> exists k | 0 <= k < |es| :: es[k] == r.value && r.value.name == name
                          && forall j | k < j < |es| :: es[j].name != name
  {
    if |es| == 0 then None
    else if es[|es| - 1].name == name then Some(es[|es| - 1])
    else
      var p := es[..|es| - 1];
      var r := EntityByName(p, name);
      assert forall i | 0 <= i < |p| :: p[i] == es[i];
      r
  }

  /** A synthesized entity is always generalized and never specialized. */
  lemma InterfaceEntitiesGeneralized(ds: seq<Declared>, e: Entity)
    requires e in FromModels(ds) && e.model.None?
    ensures Generalized(e) && !Specialized(e) && Virtual(e)
    ensures e.name in InterfaceNames(ds)
  {
    EntitiesFromModelsOnly(ds);
  }
}
