/** The Mermaid class-diagram format: the lines it writes for the entities, specializations
    and relationships `generate` hands it, the arrow it draws for a relationship, and the
    saved text. */
module Mermaid {
  import opened Wrappers
  import Options
  import Config
  import Entities
  import Relationships
  import Specializations
  import Attributes
  import Diagram
  import Domain
  import Seqs
  import Strings

  /** The two lines `setup` starts the graph with. */
  const Header: seq<string> := ["classDiagram", "\tdirection RL"]

  // ---------------------------------------------------------------------------
  // Arrows

  /** An arrow from its three parts: `arrow_tail` ("<" for `many_to?`), `arrow_body`
      (".." for `indirect?`, else "--") and `arrow_head` (">" for `to_many?`). */
  function Arrow(tail: bool, dotted: bool, head: bool): (s: string)
    ensures 2 <= |s| <= 4
  {
    (if tail then "<" else "") + (if dotted then ".." else "--") + (if head then ">" else "")
  }

  /** `relation_arrow`. */
  function RelationArrow(r: Relationships.Relationship): string {
    Arrow(Relationships.ManyTo(r), Relationships.Indirect(r), Relationships.ToMany(r))
  }

  /** Reading an arrow back: whether it has a tail, whether its body is dotted, whether it
      has a head. */
  function ParseArrow(s: string): (bool, bool, bool) {
    var tail := |s| > 0 && s[0] == '<';
    var head := |s| > 0 && s[|s| - 1] == '>';
    var body := s[(if tail then 1 else 0)..|s| - (if head && |s| > (if tail then 1 else 0) then 1 else 0)];
    (tail, body == "..", head)
  }

  /** An arrow records exactly the three flags it is built from. */
  lemma ArrowRoundTrip(tail: bool, dotted: bool, head: bool)
    ensures ParseArrow(Arrow(tail, dotted, head)) == (tail, dotted, head)
  {
    var t := if tail then "<" else "";
    var b := if dotted then ".." else "--";
    var h := if head then ">" else "";
    var s := t + b + h;
    assert s[|t|..|s| - |h|] == b;
  }

  /** So a relationship's arrow gives back its `many_to?`, `indirect?` and `to_many?`. */
  lemma RelationArrowRoundTrip(r: Relationships.Relationship)
    ensures ParseArrow(RelationArrow(r)) == (Relationships.ManyTo(r), Relationships.Indirect(r), Relationships.ToMany(r))
  {
    ArrowRoundTrip(Relationships.ManyTo(r), Relationships.Indirect(r), Relationships.ToMany(r));
  }

  /** The arrows of the common cases: `--` one-to-one, `-->` one-to-many, `<-->`
      many-to-many, and `..>` indirect one-to-many. */
  lemma ArrowShapes()
    ensures Arrow(false, false, false) == "--"
    ensures Arrow(false, false, true) == "-->"
    ensures Arrow(true, false, true) == "<-->"
    ensures Arrow(false, true, true) == "..>"
  {
  }

  // ---------------------------------------------------------------------------
  // Lines

  function ClassLine(name: string): string {
    "\tclass `" + name + "`"
  }

  function AttributeLine(entity: string, a: Attributes.Attribute): string {
    "\t`" + entity + "` : +" + Attributes.Type(a) + " " + Attributes.Name(a)
  }

  function AttributeLines(entity: string, attrs: seq<Attributes.Attribute>): (r: seq<string>)
    ensures |r| == |attrs| && forall i | 0 <= i < |r| :: r[i] == AttributeLine(entity, attrs[i])
  {
    if |attrs| == 0 then [] else [AttributeLine(entity, attrs[0])] + AttributeLines(entity, attrs[1..])
  }

  /** `each_entity`: the class line, then one line per attribute in order. */
  function EntityLines(e: Entities.Entity, attrs: seq<Attributes.Attribute>): (r: seq<string>)
    ensures |r| == 1 + |attrs|
    ensures r[0] == ClassLine(e.name)
    ensures forall i | 0 <= i < |attrs| :: r[i + 1] == AttributeLine(e.name, attrs[i])
  {
    [ClassLine(e.name)] + AttributeLines(e.name, attrs)
  }

  /** `each_specialization`: the stereotype line of the generalized entity and the
      inheritance line. */
  function SpecializationLines(s: Specializations.Specialization): (r: seq<string>)
    ensures |r| == 2
    ensures |r[0]| == |"\t<<polymorphic>> `"| + |s.generalized| + 1
    ensures Strings.StartsWith(r[0], "\t<<polymorphic>> `" + s.generalized) && r[0][|r[0]| - 1] == '`'
    ensures |r[1]| == |"\t " + s.generalized + " <|-- "| + |s.specialized|
    ensures Strings.StartsWith(r[1], "\t " + s.generalized + " <|-- ")
            && r[1][|r[1]| - |s.specialized|..] == s.specialized
  {
    Strings.StartsWithAppend("\t<<polymorphic>> `", s.generalized, "`");
    Strings.StartsWithAppend("\t " + s.generalized, " <|-- ", s.specialized);
    ["\t<<polymorphic>> `" + s.generalized + "`", "\t " + s.generalized + " <|-- " + s.specialized]
  }

  function EdgeLine(from: string, to: string, arrow: string): string {
    "\t`" + from + "` " + arrow + " `" + to + "`"
  }

  function EdgesFrom(children: seq<Entities.Entity>, to: string, arrow: string): (r: seq<string>)
    ensures |r| == |children| && forall i | 0 <= i < |r| :: r[i] == EdgeLine(children[i].name, to, arrow)
  {
    if |children| == 0 then [] else [EdgeLine(children[0].name, to, arrow)] + EdgesFrom(children[1..], to, arrow)
  }

  function EdgesTo(from: string, children: seq<Entities.Entity>, arrow: string): (r: seq<string>)
    ensures |r| == |children| && forall i | 0 <= i < |r| :: r[i] == EdgeLine(from, children[i].name, arrow)
  {
    if |children| == 0 then [] else [EdgeLine(from, children[0].name, arrow)] + EdgesTo(from, children[1..], arrow)
  }

  /** The edge between two entities, then the edge repeated from each of `fromChildren`
      to `to`, then from `from` to each of `toChildren`. */
  function EdgeGroup(from: string, to: string, arrow: string, fromChildren: seq<Entities.Entity>, toChildren: seq<Entities.Entity>): (ls: seq<string>)
    ensures |ls| == 1 + |fromChildren| + |toChildren|
    ensures ls[0] == EdgeLine(from, to, arrow)
    ensures forall j | 1 <= j < 1 + |fromChildren| :: ls[j] == EdgeLine(fromChildren[j - 1].name, to, arrow)
    ensures forall j | 1 + |fromChildren| <= j < |ls| :: ls[j] == EdgeLine(from, toChildren[j - 1 - |fromChildren|].name, arrow)
  {
    var head := [EdgeLine(from, to, arrow)];
    var outgoing := EdgesFrom(fromChildren, to, arrow);
    var incoming := EdgesTo(from, toChildren, arrow);
    var ls := head + outgoing + incoming;
    Seqs.Concat3At(head, outgoing, incoming);
    ls
  }

  /** The lines of one drawn relationship: the edge itself, then the edge repeated from
      each child of the source, then to each child of the destination. */
  function RelationshipLines(p: Diagram.Parts, r: Relationships.Relationship): (ls: seq<string>)
    requires Diagram.Resolved(p) && r.source.Some? && r.destination.Some?
    ensures var from := r.source.value; var to := r.destination.value;
            |ls| == 1 + |Diagram.Children(p, from.name)| + |Diagram.Children(p, to.name)|
            && ls[0] == EdgeLine(from.name, to.name, RelationArrow(r))
    ensures var from := r.source.value; var to := r.destination.value;
            var fromChildren := Diagram.Children(p, from.name);
            var toChildren := Diagram.Children(p, to.name);
            && (forall j | 1 <= j < 1 + |fromChildren| :: ls[j] == EdgeLine(fromChildren[j - 1].name, to.name, RelationArrow(r)))
            && (forall j | 1 + |fromChildren| <= j < |ls| ::
                  ls[j] == EdgeLine(from.name, toChildren[j - 1 - |fromChildren|].name, RelationArrow(r)))
  {
    var from := r.source.value;
    var to := r.destination.value;
    EdgeGroup(from.name, to.name, RelationArrow(r), Diagram.Children(p, from.name), Diagram.Children(p, to.name))
  }

  // ---------------------------------------------------------------------------
  // The graph

  function EntitySection(es: seq<(Entities.Entity, seq<Attributes.Attribute>)>): seq<string> {
    if |es| == 0 then [] else EntityLines(es[0].0, es[0].1) + EntitySection(es[1..])
  }

  function SpecializationSection(ss: seq<Specializations.Specialization>): seq<string> {
    if |ss| == 0 then [] else SpecializationLines(ss[0]) + SpecializationSection(ss[1..])
  }

  /** `node_exists?`: the entity's class line is already in the graph. */
  predicate NodeExists(graph: seq<string>, e: Entities.Entity) {
    ClassLine(e.name) in graph
  }

  /** `each_relationship` for one relationship: its lines are added when both of its
      entities have a class line in the graph built so far. */
  function AddRelationship(p: Diagram.Parts, graph: seq<string>, r: Relationships.Relationship): (g: seq<string>)
    requires Diagram.Resolved(p) && r.source.Some? && r.destination.Some?
    ensures graph <= g
  {
    if NodeExists(graph, r.source.value) && NodeExists(graph, r.destination.value)
    then graph + RelationshipLines(p, r) else graph
  }

  /** `each_relationship` over the relationships in order. */
  function AddRelationships(p: Diagram.Parts, graph: seq<string>, rs: seq<Relationships.Relationship>): (g: seq<string>)
    requires Diagram.Resolved(p) && Domain.EndsResolve(rs)
    ensures graph <= g
    decreases |rs|
  {
    if |rs| == 0 then graph
    else
      assert rs[0] in rs;
      assert Domain.EndsResolve(rs[1..]) by {
        forall r | r in rs[1..] ensures r.source.Some? && r.destination.Some? {
          assert r in rs;
        }
      }
      var next := AddRelationship(p, graph, rs[0]);
      var g := AddRelationships(p, next, rs[1..]);
      PrefixTransitive(graph, next, g);
      g
  }

  lemma PrefixTransitive(a: seq<string>, b: seq<string>, c: seq<string>)
    requires a <= b && b <= c
    ensures a <= c
  {
    assert c[..|a|] == c[..|b|][..|a|];
  }

  /** The graph after `generate`. */
  function Graph(p: Diagram.Parts, out: Diagram.Output): (g: seq<string>)
    requires Diagram.Resolved(p) && Domain.EndsResolve(out.relationships)
    ensures Header <= g
  {
    AddRelationships(p, Header + EntitySection(out.entities) + SpecializationSection(out.specializations), out.relationships)
  }

  // ---------------------------------------------------------------------------
  // Which relationships are drawn

  function Names(es: seq<(Entities.Entity, seq<Attributes.Attribute>)>): (r: seq<string>)
    ensures |r| == |es| && forall i | 0 <= i < |r| :: r[i] == es[i].0.name
  {
    if |es| == 0 then [] else [es[0].0.name] + Names(es[1..])
  }

  /** Class lines are told apart from every other line by their second character. */
  predicate IsClassLine(l: string) {
    |l| >= 2 && l[1] == 'c'
  }

  lemma ClassLineShape(name: string)
    ensures IsClassLine(ClassLine(name))
  {
  }

  lemma ClassLineInjective(a: string, b: string)
    requires ClassLine(a) == ClassLine(b)
    ensures a == b
  {
    assert a == ClassLine(a)[8..|ClassLine(a)| - 1];
    assert b == ClassLine(b)[8..|ClassLine(b)| - 1];
  }

  lemma {:induction false} AttributeLinesPlain(entity: string, attrs: seq<Attributes.Attribute>)
    ensures forall l | l in AttributeLines(entity, attrs) :: !IsClassLine(l)
  {
    var ls := AttributeLines(entity, attrs);
    forall i | 0 <= i < |ls| ensures !IsClassLine(ls[i]) {
      assert ls[i] == "\t`" + (entity + "` : +" + Attributes.Type(attrs[i]) + " " + Attributes.Name(attrs[i]));
    }
  }

  /** A class line is in the entity section exactly for the entities `generate` visited. */
  lemma {:induction false} ClassLineInEntities(es: seq<(Entities.Entity, seq<Attributes.Attribute>)>, name: string)
    ensures ClassLine(name) in EntitySection(es) <==> name in Names(es)
  {
    if |es| > 0 {
      ClassLineInEntities(es[1..], name);
      var e := es[0].0;
      AttributeLinesPlain(e.name, es[0].1);
      ClassLineShape(name);
      if ClassLine(name) == ClassLine(e.name) {
        ClassLineInjective(name, e.name);
      }
      assert ClassLine(name) in EntityLines(e, es[0].1) <==> name == e.name;
      assert EntitySection(es) == EntityLines(e, es[0].1) + EntitySection(es[1..]);
      assert Names(es) == [e.name] + Names(es[1..]);
    }
  }

  /** No specialization line is a class line. */
  lemma {:induction false} NoClassLineInSpecializations(ss: seq<Specializations.Specialization>)
    ensures forall l | l in SpecializationSection(ss) :: !IsClassLine(l)
  {
    if |ss| > 0 {
      NoClassLineInSpecializations(ss[1..]);
      SpecializationLinesPlain(ss[0]);
      assert SpecializationSection(ss) == SpecializationLines(ss[0]) + SpecializationSection(ss[1..]);
    }
  }

  lemma SpecializationLinesPlain(s: Specializations.Specialization)
    ensures NoClassLines(SpecializationLines(s))
  {
    var r := SpecializationLines(s);
    var stereotype := "\t<<polymorphic>> `" + s.generalized;
    var inheritance := "\t " + s.generalized + " <|-- ";
    assert r[0][1] == r[0][..|stereotype|][1] == stereotype[1] == '<';
    assert r[1][1] == r[1][..|inheritance|][1] == inheritance[1] == ' ';
  }

  lemma EdgeLineShape(from: string, to: string, arrow: string)
    ensures !IsClassLine(EdgeLine(from, to, arrow))
  {
    assert EdgeLine(from, to, arrow) == "\t`" + (from + "` " + arrow + " `" + to + "`");
  }

  /** No edge line is a class line. */
  lemma NoClassLineInEdges(p: Diagram.Parts, r: Relationships.Relationship)
    requires Diagram.Resolved(p) && r.source.Some? && r.destination.Some?
    ensures forall l | l in RelationshipLines(p, r) :: !IsClassLine(l)
  {
    var from := r.source.value;
    var to := r.destination.value;
    var arrow := RelationArrow(r);
    var e := [EdgeLine(from.name, to.name, arrow)];
    var a := EdgesFrom(Diagram.Children(p, from.name), to.name, arrow);
    var b := EdgesTo(from.name, Diagram.Children(p, to.name), arrow);
    EdgeLineShape(from.name, to.name, arrow);
    EdgesFromPlain(Diagram.Children(p, from.name), to.name, arrow);
    EdgesToPlain(from.name, Diagram.Children(p, to.name), arrow);
    NoClassLinesConcat(e, a, b);
    assert RelationshipLines(p, r) == e + a + b;
  }

  lemma EdgesFromPlain(children: seq<Entities.Entity>, to: string, arrow: string)
    ensures NoClassLines(EdgesFrom(children, to, arrow))
  {
    var a := EdgesFrom(children, to, arrow);
    forall i | 0 <= i < |a| ensures !IsClassLine(a[i]) {
      EdgeLineShape(children[i].name, to, arrow);
    }
  }

  lemma EdgesToPlain(from: string, children: seq<Entities.Entity>, arrow: string)
    ensures NoClassLines(EdgesTo(from, children, arrow))
  {
    var b := EdgesTo(from, children, arrow);
    forall i | 0 <= i < |b| ensures !IsClassLine(b[i]) {
      EdgeLineShape(from, children[i].name, arrow);
    }
  }

  lemma NoClassLinesConcat(e: seq<string>, a: seq<string>, b: seq<string>)
    requires |e| == 1 && !IsClassLine(e[0]) && NoClassLines(a) && NoClassLines(b)
    ensures NoClassLines(e + a + b)
  {
  }

  /** What `each_relationship` adds for one relationship: its lines when both of its
      entities were visited, nothing otherwise. */
  function Drawn(p: Diagram.Parts, names: seq<string>, r: Relationships.Relationship): seq<string>
    requires Diagram.Resolved(p) && r.source.Some? && r.destination.Some?
  {
    if r.source.value.name in names && r.destination.value.name in names then RelationshipLines(p, r) else []
  }

  function DrawnAll(p: Diagram.Parts, names: seq<string>, rs: seq<Relationships.Relationship>): seq<string>
    requires Diagram.Resolved(p) && Domain.EndsResolve(rs)
  {
    if |rs| == 0 then [] else assert rs[0] in rs; Drawn(p, names, rs[0]) + DrawnAll(p, names, rs[1..])
  }

  /** A relationship is drawn exactly when both of its entities are in the diagram, since
      the class lines all come before any edge: the graph is the header, the entity
      lines, the specialization lines, and the lines of each drawn relationship in
      order. */
  lemma GraphSections(p: Diagram.Parts, out: Diagram.Output)
    requires Diagram.Resolved(p) && Domain.EndsResolve(out.relationships)
    ensures Graph(p, out) == Header + EntitySection(out.entities) + SpecializationSection(out.specializations)
                             + DrawnAll(p, Names(out.entities), out.relationships)
  {
    var prefix := Header + EntitySection(out.entities) + SpecializationSection(out.specializations);
    NoClassLineInSpecializations(out.specializations);
    forall name ensures ClassLine(name) in prefix <==> name in Names(out.entities) {
      ClassLineInEntities(out.entities, name);
      ClassLineShape(name);
      assert !IsClassLine(Header[0]) && !IsClassLine(Header[1]);
    }
    AddRelationshipsDrawn(p, Names(out.entities), prefix, out.relationships);
  }

  /** The class lines of `graph` are exactly those of `names`. */
  ghost predicate ClassLinesOf(graph: seq<string>, names: seq<string>) {
    forall name :: ClassLine(name) in graph <==> name in names
  }

  /** No line of `ls` is a class line. */
  predicate NoClassLines(ls: seq<string>) {
    forall l | l in ls :: !IsClassLine(l)
  }

  lemma ExtendClassLines(graph: seq<string>, names: seq<string>, ls: seq<string>)
    requires ClassLinesOf(graph, names) && NoClassLines(ls)
    ensures ClassLinesOf(graph + ls, names)
  {
    forall name ensures ClassLine(name) in graph + ls <==> name in names {
      ClassLineShape(name);
    }
  }

  lemma {:induction false} AddRelationshipsDrawn(p: Diagram.Parts, names: seq<string>, graph: seq<string>, rs: seq<Relationships.Relationship>)
    requires Diagram.Resolved(p) && Domain.EndsResolve(rs)
    requires ClassLinesOf(graph, names)
    ensures AddRelationships(p, graph, rs) == graph + DrawnAll(p, names, rs)
    decreases |rs|
  {
    if |rs| == 0 {
      assert graph + [] == graph;
    } else {
      var r := rs[0];
      assert r in rs;
      assert Domain.EndsResolve(rs[1..]) by {
        forall x | x in rs[1..] ensures x.source.Some? && x.destination.Some? {
          assert x in rs;
        }
      }
      var d := Drawn(p, names, r);
      AddRelationshipDrawn(p, names, graph, r);
      NoClassLineInEdges(p, r);
      assert NoClassLines(d);
      ExtendClassLines(graph, names, d);
      AddRelationshipsDrawn(p, names, graph + d, rs[1..]);
      ConcatAssoc(graph, d, DrawnAll(p, names, rs[1..]));
    }
  }

  lemma ConcatAssoc(a: seq<string>, b: seq<string>, c: seq<string>)
    ensures a + b + c == a + (b + c)
  {
  }

  lemma AddRelationshipDrawn(p: Diagram.Parts, names: seq<string>, graph: seq<string>, r: Relationships.Relationship)
    requires Diagram.Resolved(p) && r.source.Some? && r.destination.Some?
    requires ClassLinesOf(graph, names)
    ensures AddRelationship(p, graph, r) == graph + Drawn(p, names, r)
  {
  }

  // ---------------------------------------------------------------------------
  // Saving

  /** `filename`: the `filename` option with ".mmd" appended. */
  function Filename(o: Options.Options): (r: string)
    ensures Options.Get(o, "filename").Str? ==> r == Options.Get(o, "filename").s + ".mmd"
  {
    Config.ToS(Options.Get(o, "filename")) + ".mmd"
  }

  /** The saved text: the graph's lines, each kept at its first occurrence, joined with
      newlines. */
  function Save(graph: seq<string>): string {
    Strings.Join(Seqs.Dedup(graph), "\n")
  }

  /** The saved text splits back into the distinct lines of the graph, in first-occurrence
      order, when no line is empty or holds a newline. */
  lemma SaveRoundTrip(graph: seq<string>)
    requires forall i | 0 <= i < |graph| :: graph[i] != "" && '\n' !in graph[i]
    ensures Strings.Split(Save(graph), "\n") == Seqs.Dedup(graph)
    ensures Seqs.NoDup(Strings.Split(Save(graph), "\n"))
  {
    var d := Seqs.Dedup(graph);
    forall i | 0 <= i < |d| ensures d[i] != "" && '\n' !in d[i] {
      assert d[i] in graph;
    }
    Strings.SplitJoin(d, '\n');
  }
}
