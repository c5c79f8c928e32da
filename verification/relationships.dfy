/** Relationships: associations grouped by identity, each group oriented from a source entity
    to a destination entity, with a cardinality derived from the associations' kinds,
    validators and foreign-key columns. */
module Relationships {
  import opened Wrappers
  import opened Schema
  import opened Cardinality
  import Entities
  import Seqs
  import Strings

  // ---------------------------------------------------------------------------
  // Identity

  /** An element of an association's identity set. `:through` options are Symbols in the
      source and never equal the Strings used for keys, owners and targets. */
  datatype Key = Str(s: string) | Sym(sym: string)

  /** The target of an association can be named: a polymorphic `belongs_to` names its
      interface, every other association needs a class Rails can load. */
  predicate Resolvable(a: Association) {
    a.polymorphic || a.klass.Success?
  }

  /** `association_identifier`: the join table of a has_and_belongs_to_many association,
      else the `:through` option, else the foreign key. */
  function Identifier(a: Association): (k: Key)
    ensures IsHabtm(a) ==> k == Str(a.joinTable)
    ensures !IsHabtm(a) && IsThrough(a) ==> k == Sym(a.through.value)
    ensures !IsHabtm(a) && !IsThrough(a) ==> k == Str(a.foreignKey)
  {
    if IsHabtm(a) then Str(a.joinTable)
    else if a.through.Some? then Sym(a.through.value)
    else Str(a.foreignKey)
  }

  /** `association_owner`: the polymorphic interface for an `:as` association, otherwise
      the declaring model. */
  function Owner(a: Association): string {
    if a.asName.Some? then a.asName.value else a.owner.name
  }

  /** `association_target`: the interface name of a polymorphic `belongs_to`, otherwise the
      associated class. */
  function Target(a: Association): string
    requires Resolvable(a)
  {
    if a.polymorphic then a.className else a.klass.value
  }

  /** `association_identity`: a set, so the order of its parts does not matter. */
  function Identity(a: Association): set<Key>
    requires Resolvable(a)
  {
    {Identifier(a), Str(Owner(a)), Str(Target(a))}
  }

  predicate AllResolvable(assocs: seq<Association>) {
    forall a | a in assocs :: Resolvable(a)
  }

  // ---------------------------------------------------------------------------
  // Grouping (`group_by`)

  /** An association paired with its identity. */
  datatype Tagged = Tagged(key: set<Key>, assoc: Association)

  function Tag(assocs: seq<Association>): (r: seq<Tagged>)
    requires AllResolvable(assocs)
    ensures |r| == |assocs|
    ensures forall i | 0 <= i < |assocs| :: r[i] == Tagged(Identity(assocs[i]), assocs[i])
  {
    if |assocs| == 0 then []
    else
      assert assocs[0] in assocs;
      [Tagged(Identity(assocs[0]), assocs[0])] + Tag(assocs[1..])
  }

  /** One entry of the hash `group_by` builds. */
  datatype Group = Group(key: set<Key>, members: seq<Association>)

  /** Adds `a` under `k`: appended to the entry with that key, or a new last entry. */
  function AddTo(gs: seq<Group>, k: set<Key>, a: Association): (r: seq<Group>)
    ensures |r| == |gs| || |r| == |gs| + 1
  {
    if |gs| == 0 then [Group(k, [a])]
    else if gs[0].key == k then [Group(k, gs[0].members + [a])] + gs[1..]
    else [gs[0]] + AddTo(gs[1..], k, a)
  }

  /** `group_by`, built one element at a time as Ruby does. */
  function GroupBy(ts: seq<Tagged>): seq<Group> {
    if |ts| == 0 then []
    else
      var n := |ts| - 1;
      AddTo(GroupBy(ts[..n]), ts[n].key, ts[n].assoc)
  }

  /** The keys in order, repeats kept. */
  function Keys(ts: seq<Tagged>): (r: seq<set<Key>>)
    ensures |r| == |ts| && forall i | 0 <= i < |ts| :: r[i] == ts[i].key
  {
    if |ts| == 0 then [] else Keys(ts[..|ts| - 1]) + [ts[|ts| - 1].key]
  }

  /** The associations tagged `k`, in order. */
  function Members(ts: seq<Tagged>, k: set<Key>): (r: seq<Association>)
    ensures forall a :: a in r <==> Tagged(k, a) in ts
  {
    if |ts| == 0 then []
    else
      var n := |ts| - 1;
      assert ts == ts[..n] + [ts[n]];
      Members(ts[..n], k) + (if ts[n].key == k then [ts[n].assoc] else [])
  }

  function GroupsOf(ks: seq<set<Key>>, ts: seq<Tagged>): (r: seq<Group>)
    ensures |r| == |ks| && forall i | 0 <= i < |ks| :: r[i] == Group(ks[i], Members(ts, ks[i]))
  {
    if |ks| == 0 then [] else [Group(ks[0], Members(ts, ks[0]))] + GroupsOf(ks[1..], ts)
  }

  /** Reference definition of the grouping: one group per distinct key, in order of first
      occurrence, holding every association with that key. */
  function Groups(ts: seq<Tagged>): seq<Group> {
    GroupsOf(Seqs.Dedup(Keys(ts)), ts)
  }

  lemma {:induction false} GroupsOfUnchanged(ks: seq<set<Key>>, p: seq<Tagged>, x: Tagged)
    requires x.key !in ks
    ensures GroupsOf(ks, p + [x]) == GroupsOf(ks, p)
  {
    var q := p + [x];
    assert q[..|q| - 1] == p;
    if |ks| > 0 {
      GroupsOfUnchanged(ks[1..], p, x);
      assert Members(q, ks[0]) == Members(p, ks[0]);
    }
  }

  lemma {:induction false} AddToGroups(ks: seq<set<Key>>, p: seq<Tagged>, x: Tagged)
    requires Seqs.NoDup(ks)
    requires x.key in ks
    ensures AddTo(GroupsOf(ks, p), x.key, x.assoc) == GroupsOf(ks, p + [x])
  {
    var q := p + [x];
    assert q[..|q| - 1] == p;
    var k := x.key;
    var gs := GroupsOf(ks, p);
    if ks[0] == k {
      assert Members(q, k) == Members(p, k) + [x.assoc];
      assert k !in ks[1..] by {
        forall j | 0 <= j < |ks[1..]| ensures ks[1..][j] != k {
          assert ks[1..][j] == ks[j + 1];
        }
      }
      GroupsOfUnchanged(ks[1..], p, x);
      assert gs[1..] == GroupsOf(ks[1..], p);
    } else {
      assert Members(q, ks[0]) == Members(p, ks[0]);
      assert k in ks[1..] by {
        var j :| 0 <= j < |ks| && ks[j] == k;
        assert ks[1..][j - 1] == k;
      }
      assert Seqs.NoDup(ks[1..]) by {
        forall i, j | 0 <= i < j < |ks[1..]| ensures ks[1..][i] != ks[1..][j] {
          assert ks[1..][i] == ks[i + 1] && ks[1..][j] == ks[j + 1];
        }
      }
      AddToGroups(ks[1..], p, x);
      assert gs[1..] == GroupsOf(ks[1..], p);
    }
  }

  lemma {:induction false} AddToGroupsNew(ks: seq<set<Key>>, p: seq<Tagged>, x: Tagged)
    requires x.key !in ks
    ensures AddTo(GroupsOf(ks, p), x.key, x.assoc) == GroupsOf(ks, p) + [Group(x.key, [x.assoc])]
  {
    if |ks| > 0 {
      AddToGroupsNew(ks[1..], p, x);
      assert GroupsOf(ks, p)[1..] == GroupsOf(ks[1..], p);
    }
  }

  /** A key not among the keys of `p` tags nothing in `p`. */
  lemma MembersAbsent(p: seq<Tagged>, k: set<Key>)
    ensures k !in Keys(p) ==> Members(p, k) == []
  {
    var m := Members(p, k);
    forall a | a in m ensures k in Keys(p) {
      var i :| 0 <= i < |p| && p[i] == Tagged(k, a);
      assert Keys(p)[i] == k;
    }
    assert |m| > 0 ==> m[0] in m;
  }

  /** `uniq` of a sequence extended by one element. */
  lemma DedupSnoc(p: seq<set<Key>>, x: set<Key>)
    ensures x in p ==> Seqs.Dedup(p + [x]) == Seqs.Dedup(p)
    ensures x !in p ==> Seqs.Dedup(p + [x]) == Seqs.Dedup(p) + [x]
  {
    assert (p + [x])[..|p|] == p;
  }

  /** Building the hash one element at a time gives exactly the reference grouping. */
  lemma {:induction false} GroupByIsGroups(ts: seq<Tagged>)
    ensures GroupBy(ts) == Groups(ts)
  {
    if |ts| > 0 {
      var n := |ts| - 1;
      var p := ts[..n];
      var x := ts[n];
      assert ts == p + [x];
      GroupByIsGroups(p);
      assert Keys(ts) == Keys(p) + [x.key];
      DedupSnoc(Keys(p), x.key);
      var ks := Seqs.Dedup(Keys(p));
      if x.key in ks {
        AddToGroups(ks, p, x);
      } else {
        AddToGroupsNew(ks, p, x);
        MembersAbsent(p, x.key);
        assert Members(ts, x.key) == [x.assoc];
        GroupsOfUnchanged(ks, p, x);
      }
    }
  }

  /** The grouping puts every association in exactly one group, the one for its key; groups
      are non-empty, their keys distinct, and each holds only its own key. */
  lemma GroupByCorrect(ts: seq<Tagged>)
    ensures forall i, j | 0 <= i < j < |GroupBy(ts)| :: GroupBy(ts)[i].key != GroupBy(ts)[j].key
    ensures forall g, a | g in GroupBy(ts) :: a in g.members <==> Tagged(g.key, a) in ts
    ensures forall g | g in GroupBy(ts) :: |g.members| > 0
    ensures forall t | t in ts :: Group(t.key, Members(ts, t.key)) in GroupBy(ts)
  {
    GroupByIsGroups(ts);
    var ks := Seqs.Dedup(Keys(ts));
    var gs := GroupBy(ts);
    forall g | g in gs ensures |g.members| > 0 {
      var i :| 0 <= i < |gs| && gs[i] == g;
      assert g.key in Keys(ts);
      var j :| 0 <= j < |ts| && Keys(ts)[j] == g.key;
      assert ts[j] == Tagged(g.key, ts[j].assoc);
      assert ts[j].assoc in g.members;
    }
    forall t | t in ts ensures Group(t.key, Members(ts, t.key)) in gs {
      var j :| 0 <= j < |ts| && ts[j] == t;
      assert Keys(ts)[j] in ks;
      var i :| 0 <= i < |ks| && ks[i] == t.key;
      assert gs[i] == Group(t.key, Members(ts, t.key));
    }
  }

  // ---------------------------------------------------------------------------
  // Relationships

  /** A relationship: its forward associations (declared by the source), its reverse ones
      (by the destination), and the entities found for its two ends (nil when a name does
      not resolve). */
  datatype Relationship = Relationship(
    forward: seq<Association>,
    reverse: seq<Association>,
    source: Option<Entities.Entity>,
    destination: Option<Entities.Entity>)

  /** `associations`: forward then reverse. */
  function AllOf(r: Relationship): seq<Association> {
    r.forward + r.reverse
  }

  predicate AnyHabtm(assocs: seq<Association>) {
    exists i | 0 <= i < |assocs| :: IsHabtm(assocs[i])
  }

  /** The declaring model whose name sorts first (the first such one on ties). */
  function FirstOwner(assocs: seq<Association>): (m: Model)
    requires |assocs| > 0
    ensures exists i | 0 <= i < |assocs| :: assocs[i].owner == m
    ensures forall i | 0 <= i < |assocs| :: Strings.Le(m.name, assocs[i].owner.name)
  {
    if |assocs| == 1 then assocs[0].owner
    else
      var m := FirstOwner(assocs[1..]);
      assert forall i | 1 <= i < |assocs| :: assocs[i] == assocs[1..][i - 1];
      if Strings.Le(assocs[0].owner.name, m.name) then
        forall i | 1 <= i < |assocs| ensures Strings.Le(assocs[0].owner.name, assocs[i].owner.name) {
          Strings.LeTransitive(assocs[0].owner.name, m.name, assocs[i].owner.name);
        }
        assocs[0].owner
      else
        Strings.LeTotal(assocs[0].owner.name, m.name);
        m
  }

  /** Whether `partition_associations` puts `a` on the reverse side: for a group with a
      has_and_belongs_to_many association, declared by another model than the first by
      name; otherwise a `belongs_to`. */
  predicate IsReverse(group: seq<Association>, a: Association)
    requires |group| > 0
  {
    if AnyHabtm(group) then a.owner != FirstOwner(group) else IsBelongsTo(a)
  }

  /** The elements of `s` on one side of the partition, in order. */
  function Side(group: seq<Association>, s: seq<Association>, reverse: bool): (r: seq<Association>)
    requires |group| > 0
    ensures forall a :: a in r <==> a in s && IsReverse(group, a) == reverse
  {
    if |s| == 0 then []
    else
      assert forall a :: a in s <==> a == s[0] || a in s[1..] by { assert s == [s[0]] + s[1..]; }
      (if IsReverse(group, s[0]) == reverse then [s[0]] else []) + Side(group, s[1..], reverse)
  }

  lemma {:induction false} SidesMultiset(group: seq<Association>, s: seq<Association>)
    requires |group| > 0
    ensures multiset(Side(group, s, false) + Side(group, s, true)) == multiset(s)
  {
    if |s| > 0 {
      SidesMultiset(group, s[1..]);
      var b := IsReverse(group, s[0]);
      assert Side(group, s, false) == (if b then [] else [s[0]]) + Side(group, s[1..], false);
      assert Side(group, s, true) == (if b then [s[0]] else []) + Side(group, s[1..], true);
      ConsMultiset(s[0], Side(group, s[1..], false), Side(group, s[1..], true), s[1..], b);
      Seqs.HeadSplit(s);
    }
  }

  /** Putting one more element on either side adds it to the multiset of both sides. */
  lemma ConsMultiset<T>(x: T, f: seq<T>, t: seq<T>, rest: seq<T>, b: bool)
    requires multiset(f + t) == multiset(rest)
    ensures multiset((if b then [] else [x]) + f + ((if b then [x] else []) + t)) == multiset([x] + rest)
  {
  }

  /** The first element of a side is the first element of `s` on that side. */
  lemma {:induction false} SideFirst(group: seq<Association>, s: seq<Association>, reverse: bool, k: nat)
    requires |group| > 0
    requires k < |s| && IsReverse(group, s[k]) == reverse
    requires forall i | 0 <= i < k :: IsReverse(group, s[i]) != reverse
    ensures |Side(group, s, reverse)| > 0 && Side(group, s, reverse)[0] == s[k]
  {
    if k > 0 {
      SideFirst(group, s[1..], reverse, k - 1);
    }
  }

  lemma {:induction false} SideNone(group: seq<Association>, s: seq<Association>, reverse: bool)
    requires |group| > 0
    requires forall i | 0 <= i < |s| :: IsReverse(group, s[i]) != reverse
    ensures Side(group, s, reverse) == []
  {
    if |s| > 0 {
      SideNone(group, s[1..], reverse);
    }
  }

  /** `partition_associations`: (reverse, forward), each in the order of the group. */
  function Partition(group: seq<Association>): (r: (seq<Association>, seq<Association>))
    requires |group| > 0
    ensures forall a :: a in r.0 <==> a in group && IsReverse(group, a)
    ensures forall a :: a in r.1 <==> a in group && !IsReverse(group, a)
    ensures multiset(r.1 + r.0) == multiset(group)
  {
    SidesMultiset(group, group);
    (Side(group, group, true), Side(group, group, false))
  }

  /** `Relationship.new(domain, associations)`: partitions the group, takes the first
      forward association (or the first reverse one), resolves its owner as the source and
      its target as the destination, and swaps the two when that association is a
      `belongs_to`. */
  function NewRelationship(group: seq<Association>, es: seq<Entities.Entity>): (r: Relationship)
    requires |group| > 0 && AllResolvable(group)
    ensures multiset(AllOf(r)) == multiset(group) && |AllOf(r)| == |group|
    ensures forall a :: a in r.reverse <==> a in group && IsReverse(group, a)
    ensures forall a :: a in r.forward <==> a in group && !IsReverse(group, a)
    ensures var lead := AllOf(r)[0];
            var owner := Entities.EntityByName(es, Owner(lead));
            var target := Entities.EntityByName(es, Target(lead));
            if IsBelongsTo(lead) then r.source == target && r.destination == owner
            else r.source == owner && r.destination == target
  {
    var (rev, fwd) := Partition(group);
    assert |fwd + rev| == |group| by { assert |multiset(fwd + rev)| == |multiset(group)|; }
    assert (fwd + rev)[0] in group by { assert (fwd + rev)[0] in multiset(fwd + rev); }
    Directed(fwd, rev, es)
  }

  /** The relationship with the given sides, directed by the first of its associations. */
  function Directed(fwd: seq<Association>, rev: seq<Association>, es: seq<Entities.Entity>): (r: Relationship)
    requires |fwd + rev| > 0 && Resolvable((fwd + rev)[0])
    ensures r.forward == fwd && r.reverse == rev
    ensures var lead := AllOf(r)[0];
            var owner := Entities.EntityByName(es, Owner(lead));
            var target := Entities.EntityByName(es, Target(lead));
            if IsBelongsTo(lead) then r.source == target && r.destination == owner
            else r.source == owner && r.destination == target
  {
    var lead := (fwd + rev)[0];
    var owner := Entities.EntityByName(es, Owner(lead));
    var target := Entities.EntityByName(es, Target(lead));
    if IsBelongsTo(lead) then Relationship(fwd, rev, target, owner)
    else Relationship(fwd, rev, owner, target)
  }

  /** `Relationship.new` for each group in turn. */
  function NewEach(gs: seq<Group>, es: seq<Entities.Entity>): (rs: seq<Relationship>)
    requires forall g | g in gs :: |g.members| > 0 && AllResolvable(g.members)
    ensures |rs| == |gs|
    ensures forall i | 0 <= i < |gs| :: rs[i] == NewRelationship(gs[i].members, es)
  {
    if |gs| == 0 then [] else [NewRelationship(gs[0].members, es)] + NewEach(gs[1..], es)
  }

  /** Every group of a grouping of tagged associations holds resolvable associations. */
  lemma GroupsResolvable(assocs: seq<Association>)
    requires AllResolvable(assocs)
    ensures forall i | 0 <= i < |GroupBy(Tag(assocs))| :: |GroupBy(Tag(assocs))[i].members| > 0 && AllResolvable(GroupBy(Tag(assocs))[i].members)
  {
    var ts := Tag(assocs);
    var gs := GroupBy(ts);
    GroupByCorrect(ts);
    forall i, a | 0 <= i < |gs| && a in gs[i].members ensures Resolvable(a) {
      assert gs[i] in gs;
      TaggedIdentity(assocs, gs[i].key, a);
    }
    forall i | 0 <= i < |gs| ensures |gs[i].members| > 0 {
      assert gs[i] in gs;
    }
  }

  /** `Relationship.from_associations`: one relationship per identity group, in order of
      first occurrence. */
  function FromAssociations(assocs: seq<Association>, es: seq<Entities.Entity>): (rs: seq<Relationship>)
    requires AllResolvable(assocs)
    ensures |rs| == |GroupBy(Tag(assocs))|
    ensures forall i, a | 0 <= i < |rs| :: a in AllOf(rs[i]) <==> a in GroupBy(Tag(assocs))[i].members
  {
    GroupsResolvable(assocs);
    NewEach(GroupBy(Tag(assocs)), es)
  }

  /** Each input association lies in some relationship. */
  lemma FromAssociationsCovers(assocs: seq<Association>, es: seq<Entities.Entity>, a: Association)
    requires AllResolvable(assocs) && a in assocs
    ensures exists i | 0 <= i < |FromAssociations(assocs, es)| :: a in AllOf(FromAssociations(assocs, es)[i])
  {
    var ts := Tag(assocs);
    var gs := GroupBy(ts);
    var rs := FromAssociations(assocs, es);
    GroupByCorrect(ts);
    var j :| 0 <= j < |assocs| && assocs[j] == a;
    assert ts[j] in ts;
    var g := Group(ts[j].key, Members(ts, ts[j].key));
    assert g in gs;
    var i :| 0 <= i < |gs| && gs[i] == g;
    assert a in g.members;
    assert a in AllOf(rs[i]);
  }

  /** The associations of one relationship are exactly those sharing one identity. */
  lemma FromAssociationsSameIdentity(assocs: seq<Association>, es: seq<Entities.Entity>, i: nat, a: Association)
    requires AllResolvable(assocs)
    requires i < |FromAssociations(assocs, es)| && a in AllOf(FromAssociations(assocs, es)[i])
    ensures a in assocs && Resolvable(a)
    ensures forall b | b in assocs :: b in AllOf(FromAssociations(assocs, es)[i]) <==> Identity(b) == Identity(a)
  {
    var ts := Tag(assocs);
    var gs := GroupBy(ts);
    var r := FromAssociations(assocs, es)[i];
    assert forall x :: x in AllOf(r) <==> x in gs[i].members;
    GroupByCorrect(ts);
    assert gs[i] in gs;
    TaggedIdentity(assocs, gs[i].key, a);
    forall b | b in assocs ensures b in gs[i].members <==> Identity(b) == Identity(a) {
      GroupSameIdentity(assocs, gs[i], a, b);
    }
  }

  lemma GroupSameIdentity(assocs: seq<Association>, g: Group, a: Association, b: Association)
    requires AllResolvable(assocs)
    requires forall x :: x in g.members <==> Tagged(g.key, x) in Tag(assocs)
    requires a in g.members && b in assocs
    ensures b in g.members <==> Identity(b) == Identity(a)
  {
    var ts := Tag(assocs);
    TaggedIdentity(assocs, g.key, a);
    TaggedIdentity(assocs, g.key, b);
    var j :| 0 <= j < |assocs| && assocs[j] == b;
    assert ts[j] == Tagged(Identity(b), b);
  }

  lemma TaggedIdentity(assocs: seq<Association>, k: set<Key>, a: Association)
    requires AllResolvable(assocs)
    ensures Tagged(k, a) in Tag(assocs) ==> a in assocs && Resolvable(a) && k == Identity(a)
  {
    if Tagged(k, a) in Tag(assocs) {
      var i :| 0 <= i < |assocs| && Tag(assocs)[i] == Tagged(k, a);
      assert assocs[i] == a;
    }
  }

  // ---------------------------------------------------------------------------
  // Cardinality

  function AssociationValidators(kind: ValidatorKind, a: Association): (r: seq<Validator>)
    ensures forall v :: v in r <==> v in a.owner.validators && a.name in v.attributes && v.kind == kind
  {
    Seqs.Filter(ValidatorsOn(a.owner.validators, a.name), (v: Validator) => v.kind == kind)
  }

  /** `foreign_key_required?`: a `belongs_to` of a non-abstract model whose foreign-key
      column exists and is NOT NULL. */
  predicate ForeignKeyRequired(a: Association) {
    !a.owner.abstractClass && IsBelongsTo(a)
    && var c := ColumnNamed(a.owner.columns, a.foreignKey);
       c.Some? && !c.value.nullable
  }

  /** The `:minimum` options of the association's length validators that are set. */
  function LengthMinimums(vs: seq<Validator>): (r: seq<int>)
    ensures forall m :: m in r <==> exists v | v in vs :: v.minimum == Some(m)
  {
    if |vs| == 0 then []
    else
      assert forall v :: v in vs <==> v == vs[0] || v in vs[1..] by { assert vs == [vs[0]] + vs[1..]; }
      (if vs[0].minimum.Some? then [vs[0].minimum.value] else []) + LengthMinimums(vs[1..])
  }

  function LengthMaximums(vs: seq<Validator>): (r: seq<int>)
    ensures forall m :: m in r <==> exists v | v in vs :: v.maximum == Some(m)
  {
    if |vs| == 0 then []
    else
      assert forall v :: v in vs <==> v == vs[0] || v in vs[1..] by { assert vs == [vs[0]] + vs[1..]; }
      (if vs[0].maximum.Some? then [vs[0].maximum.value] else []) + LengthMaximums(vs[1..])
  }

  function MaxOf(s: seq<int>): (m: int)
    requires |s| > 0
    ensures m in s && forall x | x in s :: x <= m
  {
    if |s| == 1 then s[0]
    else
      var m := MaxOf(s[1..]);
      assert forall x | x in s :: x == s[0] || x in s[1..] by { assert s == [s[0]] + s[1..]; }
      if s[0] >= m then s[0] else m
  }

  function MinOf(s: seq<int>): (m: int)
    requires |s| > 0
    ensures m in s && forall x | x in s :: m <= x
  {
    if |s| == 1 then s[0]
    else
      var m := MinOf(s[1..]);
      assert forall x | x in s :: x == s[0] || x in s[1..] by { assert s == [s[0]] + s[1..]; }
      if s[0] <= m then s[0] else m
  }

  /** `association_minimum`: the largest `:minimum` of a length validator when there is one;
      otherwise 1 when a presence validator or a NOT NULL foreign key requires the
      association, else 0. A length minimum replaces the presence floor rather than adding
      to it, so it may lower the minimum to 0. */
  function AssociationMinimum(a: Association): (r: int)
    ensures var mins := LengthMinimums(AssociationValidators(Length, a));
      && (|mins| > 0 ==> r in mins && forall m | m in mins :: m <= r)
      && (|mins| == 0 ==> (r == 1 <==> |AssociationValidators(Presence, a)| > 0 || ForeignKeyRequired(a))
                          && (r == 0 || r == 1))
  {
    var mins := LengthMinimums(AssociationValidators(Length, a));
    if |mins| > 0 then MaxOf(mins)
    else if |AssociationValidators(Presence, a)| > 0 || ForeignKeyRequired(a) then 1
    else 0
  }

  /** `association_maximum`: the smallest `:maximum` of a length validator when there is
      one; otherwise N for a collection and 1 for a single association. */
  function AssociationMaximum(a: Association): (r: Bound)
    ensures var maxs := LengthMaximums(AssociationValidators(Length, a));
      && (|maxs| > 0 ==> r.Fin? && r.n in maxs && forall m | m in maxs :: r.n <= m)
      && (|maxs| == 0 ==> (r == Inf <==> IsCollection(a)) && (r == Inf || r == Fin(1)))
  {
    var maxs := LengthMaximums(AssociationValidators(Length, a));
    if |maxs| > 0 then Fin(MinOf(maxs))
    else if IsCollection(a) then Inf
    else Fin(1)
  }

  lemma SingleMaximum(a: Association)
    requires !IsCollection(a) && LengthMaximums(AssociationValidators(Length, a)) == []
    ensures AssociationMaximum(a) == Fin(1)
  {
  }

  function Minima(assocs: seq<Association>): (r: seq<int>)
    ensures |r| == |assocs| && forall i | 0 <= i < |assocs| :: r[i] == AssociationMinimum(assocs[i])
  {
    if |assocs| == 0 then [] else [AssociationMinimum(assocs[0])] + Minima(assocs[1..])
  }

  function Maxima(assocs: seq<Association>): (r: seq<Bound>)
    ensures |r| == |assocs| && forall i | 0 <= i < |assocs| :: r[i] == AssociationMaximum(assocs[i])
  {
    if |assocs| == 0 then [] else [AssociationMaximum(assocs[0])] + Maxima(assocs[1..])
  }

  function MaxBound(s: seq<Bound>): (m: Bound)
    requires |s| > 0
    ensures m in s && forall x | x in s :: BoundLe(x, m)
  {
    if |s| == 1 then s[0]
    else
      var m := MaxBound(s[1..]);
      assert forall x | x in s :: x == s[0] || x in s[1..] by { assert s == [s[0]] + s[1..]; }
      BoundMax(s[0], m)
  }

  /** `associations_range`: from the highest association minimum (0 without associations)
      to the highest association maximum (`absoluteMax` without associations). */
  function SideRange(assocs: seq<Association>, absoluteMax: Bound): (r: Range)
    ensures |assocs| == 0 ==> r == Range(0, absoluteMax)
    ensures |assocs| > 0 ==>
              && (exists i | 0 <= i < |assocs| :: AssociationMinimum(assocs[i]) == r.first)
              && (forall i | 0 <= i < |assocs| :: AssociationMinimum(assocs[i]) <= r.first)
              && (exists i | 0 <= i < |assocs| :: AssociationMaximum(assocs[i]) == r.last)
              && (forall i | 0 <= i < |assocs| :: BoundLe(AssociationMaximum(assocs[i]), r.last))
  {
    if |assocs| == 0 then Range(0, absoluteMax)
    else
      var mins := Minima(assocs);
      var maxs := Maxima(assocs);
      var r := Range(MaxOf(mins), MaxBound(maxs));
      assert forall i | 0 <= i < |assocs| :: mins[i] in mins && maxs[i] in maxs;
      r
  }

  /** `cardinality`: the reverse side's range (capped at 1 when missing, unless a
      has_and_belongs_to_many is involved) to the forward side's range (N when missing). */
  function RelCardinality(r: Relationship): (c: Cardinality)
    ensures c.destination == SideRange(r.forward, Inf)
    ensures !AnyHabtm(AllOf(r)) ==> c.source == SideRange(r.reverse, Fin(1))
    ensures AnyHabtm(AllOf(r)) ==> c.source == SideRange(r.reverse, Inf)
  {
    var reverseMax := if AnyHabtm(AllOf(r)) then Inf else Fin(1);
    Cardinality(SideRange(r.reverse, reverseMax), SideRange(r.forward, Inf))
  }

  // ---------------------------------------------------------------------------
  // Predicates

  /** `indirect?`: there are forward associations and all of them go `:through`. */
  function Indirect(r: Relationship): (b: bool)
    ensures b <==> |r.forward| > 0 && forall a | a in r.forward :: IsThrough(a)
  {
    |r.forward| > 0 && forall i | 0 <= i < |r.forward| :: IsThrough(r.forward[i])
  }

  /** `mutual?`: both sides declared an association. */
  function Mutual(r: Relationship): (b: bool)
    ensures b <==> |r.forward| < |AllOf(r)| && |r.reverse| < |AllOf(r)|
  {
    |r.forward| > 0 && |r.reverse| > 0
  }

  /** `recursive?`: the two ends are the same entity. */
  function Recursive(r: Relationship): (b: bool)
    ensures r.source.Some? && r.destination.Some? ==> (b <==> r.source.value == r.destination.value)
  {
    r.source == r.destination
  }

  /** `to_one?`: the destination class is 1, so one-to-one or many-to-one. */
  function ToOne(r: Relationship): (b: bool)
    ensures b <==> CardName(RelCardinality(r)) == OneToOne || CardName(RelCardinality(r)) == ManyToOne
  {
    DestinationClass(RelCardinality(r)) == One
  }

  /** `to_many?`: the destination class is N, so one-to-many or many-to-many. */
  function ToMany(r: Relationship): (b: bool)
    ensures b <==> !ToOne(r)
    ensures b <==> CardName(RelCardinality(r)) == OneToMany || CardName(RelCardinality(r)) == ManyToMany
  {
    DestinationClass(RelCardinality(r)) != One
  }

  /** `one_to?`: the source class is 1, so one-to-one or one-to-many. */
  function OneTo(r: Relationship): (b: bool)
    ensures b <==> CardName(RelCardinality(r)) == OneToOne || CardName(RelCardinality(r)) == OneToMany
  {
    SourceClass(RelCardinality(r)) == One
  }

  /** `many_to?`: the source class is N, so many-to-one or many-to-many. */
  function ManyTo(r: Relationship): (b: bool)
    ensures b <==> !OneTo(r)
    ensures b <==> CardName(RelCardinality(r)) == ManyToOne || CardName(RelCardinality(r)) == ManyToMany
  {
    SourceClass(RelCardinality(r)) != One
  }

  /** `strength`: 1 when the source is generalized, else the number of associations. */
  function Strength(r: Relationship): (s: nat)
    requires r.source.Some?
    ensures Entities.Generalized(r.source.value) ==> s == 1
    ensures !Entities.Generalized(r.source.value) ==> s == |r.forward| + |r.reverse|
  {
    if Entities.Generalized(r.source.value) then 1 else |AllOf(r)|
  }

  /** `Relationship#<=>`: by source name, then destination name. */
  function Compare(a: Relationship, b: Relationship): (c: int)
    requires a.source.Some? && a.destination.Some? && b.source.Some? && b.destination.Some?
    ensures -1 <= c <= 1
    ensures c == 0 <==> a.source.value.name == b.source.value.name && a.destination.value.name == b.destination.value.name
  {
    var k := Strings.Compare(a.source.value.name, b.source.value.name);
    if k != 0 then k else Strings.Compare(a.destination.value.name, b.destination.value.name)
  }

  lemma CompareAntisymmetric(a: Relationship, b: Relationship)
    requires a.source.Some? && a.destination.Some? && b.source.Some? && b.destination.Some?
    ensures Compare(a, b) == -Compare(b, a)
  {
    Strings.CompareAntisymmetric(a.source.value.name, b.source.value.name);
    Strings.CompareAntisymmetric(a.destination.value.name, b.destination.value.name);
  }

  // ---------------------------------------------------------------------------
  // Properties of a relationship built from a group

  /** The relationship is mutual exactly when the group holds associations for both sides. */
  lemma MutualIffBothSides(group: seq<Association>, es: seq<Entities.Entity>)
    requires |group| > 0 && AllResolvable(group)
    ensures Mutual(NewRelationship(group, es)) <==>
              (exists a | a in group :: IsReverse(group, a)) && (exists a | a in group :: !IsReverse(group, a))
  {
    var r := NewRelationship(group, es);
    assert forall a :: a in r.forward + r.reverse <==> a in group by {
      forall a ensures a in r.forward + r.reverse <==> a in group {
        assert a in multiset(r.forward + r.reverse) <==> a in multiset(group);
      }
    }
    if (exists a | a in group :: IsReverse(group, a)) && (exists a | a in group :: !IsReverse(group, a)) {
      var x :| x in group && IsReverse(group, x);
      var y :| y in group && !IsReverse(group, y);
      assert x in r.reverse && y in r.forward;
    }
    if Mutual(r) {
      assert r.reverse[0] in group && r.forward[0] in group;
    }
  }

  /** Without has_and_belongs_to_many, the source is the owner of the first association that
      is not a `belongs_to`, and the destination its target. */
  lemma DirectionFromHasSide(group: seq<Association>, es: seq<Entities.Entity>, k: nat)
    requires |group| > 0 && AllResolvable(group) && !AnyHabtm(group)
    requires k < |group| && !IsBelongsTo(group[k]) && forall i | 0 <= i < k :: IsBelongsTo(group[i])
    ensures NewRelationship(group, es).source == Entities.EntityByName(es, Owner(group[k]))
    ensures NewRelationship(group, es).destination == Entities.EntityByName(es, Target(group[k]))
  {
    SideFirst(group, group, false, k);
  }

  /** A group of `belongs_to` associations alone runs from the target of the first one to
      its owner: the model declaring `belongs_to` is the destination. */
  lemma DirectionFromBelongsTo(group: seq<Association>, es: seq<Entities.Entity>)
    requires |group| > 0 && AllResolvable(group)
    requires forall i | 0 <= i < |group| :: IsBelongsTo(group[i])
    ensures NewRelationship(group, es).source == Entities.EntityByName(es, Target(group[0]))
    ensures NewRelationship(group, es).destination == Entities.EntityByName(es, Owner(group[0]))
    ensures NewRelationship(group, es).forward == []
  {
    assert !AnyHabtm(group);
    SideNone(group, group, false);
    SideFirst(group, group, true, 0);
  }

  /** For a group of has_and_belongs_to_many associations, the model whose name sorts first
      is the source. */
  lemma HabtmSourceSortsFirst(group: seq<Association>, es: seq<Entities.Entity>)
    requires |group| > 0 && AllResolvable(group)
    requires forall i | 0 <= i < |group| :: IsHabtm(group[i]) && group[i].asName.None?
    ensures NewRelationship(group, es).source == Entities.EntityByName(es, FirstOwner(group).name)
    ensures forall a | a in NewRelationship(group, es).forward :: a.owner == FirstOwner(group)
    ensures forall a | a in NewRelationship(group, es).reverse :: a.owner != FirstOwner(group)
  {
    assert IsHabtm(group[0]);
    var r := NewRelationship(group, es);
    var m := FirstOwner(group);
    SidesByOwner(group, r.forward, r.reverse, m);
    FirstOwnerForward(group, r.forward, m);
    var lead := r.forward[0];
    assert lead in group;
    PlainHabtm(group, lead);
  }

  /** The association declared by the first owner lands on the forward side. */
  lemma FirstOwnerForward(group: seq<Association>, fwd: seq<Association>, m: Model)
    requires |group| > 0 && AnyHabtm(group) && m == FirstOwner(group)
    requires forall a :: a in fwd <==> a in group && !IsReverse(group, a)
    ensures |fwd| > 0
  {
    var i :| 0 <= i < |group| && group[i].owner == m;
    assert group[i] in fwd;
  }

  /** A member of a group of plain has_and_belongs_to_many associations is owned by name. */
  lemma PlainHabtm(group: seq<Association>, a: Association)
    requires forall i | 0 <= i < |group| :: IsHabtm(group[i]) && group[i].asName.None?
    requires a in group
    ensures !IsBelongsTo(a) && Owner(a) == a.owner.name
  {
    var j :| 0 <= j < |group| && group[j] == a;
  }

  /** With a has_and_belongs_to_many association in the group, the sides split by owner. */
  lemma SidesByOwner(group: seq<Association>, fwd: seq<Association>, rev: seq<Association>, m: Model)
    requires |group| > 0 && AnyHabtm(group) && m == FirstOwner(group)
    requires forall a :: a in rev <==> a in group && IsReverse(group, a)
    requires forall a :: a in fwd <==> a in group && !IsReverse(group, a)
    ensures forall a | a in fwd :: a.owner == m
    ensures forall a | a in rev :: a.owner != m
  {
  }

  /** When only `belongs_to` associations describe a relationship (and no length validator
      caps them), it is one-to-many: the other side may hold any number of records. */
  lemma BelongsToAloneIsOneToMany(group: seq<Association>, es: seq<Entities.Entity>)
    requires |group| > 0 && AllResolvable(group)
    requires forall i | 0 <= i < |group| :: IsBelongsTo(group[i])
    requires forall i | 0 <= i < |group| :: LengthMaximums(AssociationValidators(Length, group[i])) == []
    ensures RelCardinality(NewRelationship(group, es)).destination == Range(0, Inf)
    ensures IsOneToMany(RelCardinality(NewRelationship(group, es)))
  {
    DirectionFromBelongsTo(group, es);
    var r := NewRelationship(group, es);
    forall k | 0 <= k < |r.reverse| ensures IsBelongsTo(r.reverse[k]) && LengthMaximums(AssociationValidators(Length, r.reverse[k])) == [] {
      assert r.reverse[k] in group;
    }
    assert group[0] in r.reverse;
    BelongsToSideIsOneToMany(r);
  }

  /** A relationship described by uncapped `belongs_to` associations alone is one-to-many. */
  lemma BelongsToSideIsOneToMany(r: Relationship)
    requires r.forward == [] && |r.reverse| > 0
    requires forall k | 0 <= k < |r.reverse| :: IsBelongsTo(r.reverse[k]) && LengthMaximums(AssociationValidators(Length, r.reverse[k])) == []
    ensures RelCardinality(r).destination == Range(0, Inf)
    ensures IsOneToMany(RelCardinality(r))
  {
    assert AllOf(r) == r.reverse;
    assert !AnyHabtm(AllOf(r));
    forall k | 0 <= k < |r.reverse| ensures AssociationMaximum(r.reverse[k]) == Fin(1) {
      SingleMaximum(r.reverse[k]);
    }
  }

  /** The two ends of a relationship are the entities found for the owner and the target of
      one association, in one order or the other. */
  predicate EndsOf(r: Relationship, es: seq<Entities.Entity>, a: Association)
    requires Resolvable(a)
  {
    var o := Entities.EntityByName(es, Owner(a));
    var t := Entities.EntityByName(es, Target(a));
    (r.source == o && r.destination == t) || (r.source == t && r.destination == o)
  }

  lemma NewRelationshipEnds(group: seq<Association>, es: seq<Entities.Entity>)
    requires |group| > 0 && AllResolvable(group)
    ensures exists a | a in group :: Resolvable(a) && EndsOf(NewRelationship(group, es), es, a)
  {
    var r := NewRelationship(group, es);
    var lead := AllOf(r)[0];
    assert lead in group by { assert lead in multiset(AllOf(r)); }
  }


  /** Every relationship built from a list of associations runs between the owner and the
      target of one of them. */
  lemma FromAssociationsEnds(assocs: seq<Association>, es: seq<Entities.Entity>, i: nat)
    requires AllResolvable(assocs) && i < |FromAssociations(assocs, es)|
    ensures exists a | a in assocs :: Resolvable(a) && EndsOf(FromAssociations(assocs, es)[i], es, a)
  {
    var gs := GroupBy(Tag(assocs));
    GroupsResolvable(assocs);
    var r := FromAssociations(assocs, es)[i];
    assert r == NewRelationship(gs[i].members, es);
    NewRelationshipEnds(gs[i].members, es);
    var a :| a in gs[i].members && Resolvable(a) && EndsOf(r, es, a);
    assert a in AllOf(r);
    FromAssociationsSameIdentity(assocs, es, i, a);
  }

  /** Has_and_belongs_to_many on both sides (and no length validator) makes many-to-many. */
  lemma HabtmIsManyToMany(group: seq<Association>, es: seq<Entities.Entity>)
    requires |group| > 0 && AllResolvable(group)
    requires forall i | 0 <= i < |group| :: IsHabtm(group[i])
    requires forall i | 0 <= i < |group| :: LengthMaximums(AssociationValidators(Length, group[i])) == []
    ensures IsManyToMany(RelCardinality(NewRelationship(group, es)))
  {
    var r := NewRelationship(group, es);
    assert AllOf(r)[0] in group;
    assert AnyHabtm(AllOf(r));
    forall a | a in r.forward || a in r.reverse ensures AssociationMaximum(a) == Inf {
      assert a in group;
    }
    UnboundedSide(r.forward, Inf);
    UnboundedSide(r.reverse, Inf);
  }

  /** A side whose every association is unbounded, with an unbounded default, is unbounded. */
  lemma UnboundedSide(assocs: seq<Association>, absoluteMax: Bound)
    requires absoluteMax == Inf
    requires forall a | a in assocs :: AssociationMaximum(a) == Inf
    ensures SideRange(assocs, absoluteMax).last == Inf
  {
    if |assocs| > 0 {
      var i :| 0 <= i < |assocs| && AssociationMaximum(assocs[i]) == SideRange(assocs, absoluteMax).last;
      assert assocs[i] in assocs;
    }
  }
}
