/** Specializations: single-table inheritance (a model stored in its base class's table) and
    polymorphic interfaces (a model that takes part in an `:as` association). */
module Specializations {
  import opened Wrappers
  import opened Schema
  import Entities
  import Seqs
  import Strings

  /** A specialization, by the names of its two entities; `domain.entity_by_name` turns
      each name into the entity the source stores. */
  datatype Specialization = Specialization(generalized: string, specialized: string)

  function GeneralizedEntity(s: Specialization, es: seq<Entities.Entity>): Option<Entities.Entity> {
    Entities.EntityByName(es, s.generalized)
  }

  function SpecializedEntity(s: Specialization, es: seq<Entities.Entity>): Option<Entities.Entity> {
    Entities.EntityByName(es, s.specialized)
  }

  /** `polymorphic?`: the generalized entity is a generalized one (an interface or an
      abstract class). */
  function Polymorphic(s: Specialization, es: seq<Entities.Entity>): (b: bool)
    requires GeneralizedEntity(s, es).Some?
    ensures b <==> GeneralizedEntity(s, es).value.model.None? || GeneralizedEntity(s, es).value.model.value.abstractClass
  {
    Entities.Generalized(GeneralizedEntity(s, es).value)
  }

  /** `inheritance?`: every specialization that is not polymorphic. */
  function Inheritance(s: Specialization, es: seq<Entities.Entity>): (b: bool)
    requires GeneralizedEntity(s, es).Some?
    ensures b <==> GeneralizedEntity(s, es).value.model.Some? && !GeneralizedEntity(s, es).value.model.value.abstractClass
  {
    !Polymorphic(s, es)
  }

  /** `Specialization#<=>`: by generalized name, then specialized name. */
  function Compare(a: Specialization, b: Specialization): (c: int)
    ensures -1 <= c <= 1
    ensures c == 0 <==> a == b
  {
    var k := Strings.Compare(a.generalized, b.generalized);
    if k != 0 then k else Strings.Compare(a.specialized, b.specialized)
  }

  predicate SpecLe(a: Specialization, b: Specialization) {
    Compare(a, b) <= 0
  }

  lemma SpecLeTotalPreorder()
    ensures Seqs.TotalPreorder(SpecLe)
  {
    forall a: Specialization, b: Specialization ensures SpecLe(a, b) || SpecLe(b, a) {
      Strings.CompareAntisymmetric(a.generalized, b.generalized);
      Strings.CompareAntisymmetric(a.specialized, b.specialized);
    }
    forall a: Specialization, b: Specialization, c: Specialization | SpecLe(a, b) && SpecLe(b, c)
      ensures SpecLe(a, c)
    {
      SpecLeTransitive(a, b, c);
    }
  }

  lemma SpecLeTransitive(a: Specialization, b: Specialization, c: Specialization)
    requires SpecLe(a, b) && SpecLe(b, c)
    ensures SpecLe(a, c)
  {
    Strings.LeTransitive(a.generalized, b.generalized, c.generalized);
    Strings.CompareAntisymmetric(a.generalized, b.generalized);
    Strings.CompareAntisymmetric(b.generalized, c.generalized);
    Strings.CompareAntisymmetric(a.generalized, c.generalized);
    if a.generalized == b.generalized == c.generalized {
      Strings.LeTransitive(a.specialized, b.specialized, c.specialized);
    }
  }

  /** `inheritance_from_models`: for each model that does not descend directly from
      ActiveRecord::Base, its base class over itself. */
  function InheritanceFromModels(models: seq<Model>): (r: seq<Specialization>)
    ensures forall s :: s in r <==> exists m | m in models :: !m.descendsFromActiveRecord && s == Specialization(m.baseClassName, m.name)
  {
    if |models| == 0 then []
    else
      var m := models[0];
      assert forall x :: x in models <==> x == m || x in models[1..] by { assert models == [m] + models[1..]; }
      (if !m.descendsFromActiveRecord then [Specialization(m.baseClassName, m.name)] else [])
      + InheritanceFromModels(models[1..])
  }

  /** Each association with `:as`, as (interface, declaring model), repeats kept. */
  function InterfacePairs(assocs: seq<Association>): (r: seq<Specialization>)
    ensures forall s :: s in r <==> exists a | a in assocs :: a.asName.Some? && s == Specialization(a.asName.value, a.owner.name)
  {
    if |assocs| == 0 then []
    else
      var a := assocs[0];
      assert forall x :: x in assocs <==> x == a || x in assocs[1..] by { assert assocs == [a] + assocs[1..]; }
      (if a.asName.Some? then [Specialization(a.asName.value, a.owner.name)] else [])
      + InterfacePairs(assocs[1..])
  }

  /** `polymorphic_from_models`: one specialization per distinct (interface, model) pair,
      looking at every association of the given models. */
  function PolymorphicFromModels(ds: seq<Declared>): (r: seq<Specialization>)
    ensures Seqs.NoDup(r)
    ensures forall s :: s in r <==> exists a | a in AllAssociations(ds) :: a.asName.Some? && s == Specialization(a.asName.value, a.owner.name)
  {
    Seqs.Dedup(InterfacePairs(AllAssociations(ds)))
  }

  /** `Specialization.from_models`: inheritance and polymorphic specializations, ordered by
      generalized name and then specialized name. */
  function FromModels(ds: seq<Declared>): (r: seq<Specialization>)
    ensures multiset(r) == multiset(InheritanceFromModels(Entities.Models(ds)) + PolymorphicFromModels(ds))
    ensures Seqs.SortedBy(SpecLe, r)
  {
    SpecLeTotalPreorder();
    Seqs.Sort(InheritanceFromModels(Entities.Models(ds)) + PolymorphicFromModels(ds), SpecLe)
  }

  /** The specializations are exactly the single-table-inheritance pairs and the interface
      pairs; an interface shared by several associations of one model appears once. */
  lemma FromModelsContents(ds: seq<Declared>)
    ensures forall s :: s in FromModels(ds) <==>
              (exists i | 0 <= i < |ds| :: !ds[i].model.descendsFromActiveRecord && s == Specialization(ds[i].model.baseClassName, ds[i].model.name))
              || (exists a | a in AllAssociations(ds) :: a.asName.Some? && s == Specialization(a.asName.value, a.owner.name))
    ensures forall s | s in PolymorphicFromModels(ds) :: multiset(PolymorphicFromModels(ds))[s] == 1
  {
    FromModelsMembers(ds);
    InheritanceMembers(ds);
    PolymorphicOnce(PolymorphicFromModels(ds));
  }

  lemma PolymorphicOnce(poly: seq<Specialization>)
    requires Seqs.NoDup(poly)
    ensures forall s | s in poly :: multiset(poly)[s] == 1
  {
    forall s | s in poly ensures multiset(poly)[s] == 1 {
      Seqs.NoDupOnce(poly, s);
    }
  }

  lemma FromModelsMembers(ds: seq<Declared>)
    ensures forall s :: s in FromModels(ds) <==> s in InheritanceFromModels(Entities.Models(ds)) || s in PolymorphicFromModels(ds)
  {
    var both := InheritanceFromModels(Entities.Models(ds)) + PolymorphicFromModels(ds);
    forall s ensures s in FromModels(ds) <==> s in both {
      assert s in multiset(FromModels(ds)) <==> s in multiset(both);
    }
  }

  lemma InheritanceMembers(ds: seq<Declared>)
    ensures forall s :: s in InheritanceFromModels(Entities.Models(ds)) <==>
              exists i | 0 <= i < |ds| :: !ds[i].model.descendsFromActiveRecord && s == Specialization(ds[i].model.baseClassName, ds[i].model.name)
  {
    var ms := Entities.Models(ds);
    forall s | s in InheritanceFromModels(ms)
      ensures exists i | 0 <= i < |ds| :: !ds[i].model.descendsFromActiveRecord && s == Specialization(ds[i].model.baseClassName, ds[i].model.name)
    {
      var m :| m in ms && !m.descendsFromActiveRecord && s == Specialization(m.baseClassName, m.name);
      var i :| 0 <= i < |ds| && ms[i] == m;
    }
    forall i | 0 <= i < |ds| && !ds[i].model.descendsFromActiveRecord
      ensures Specialization(ds[i].model.baseClassName, ds[i].model.name) in InheritanceFromModels(ms)
    {
      assert ms[i] in ms;
    }
  }
}
