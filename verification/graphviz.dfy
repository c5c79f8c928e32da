/** The notation-specific pieces of the Graphviz diagram: how each cardinality style
    draws the ends of a relationship edge, the edge options, the title, the file name
    and type, and the rank direction. The graph library calls and the node template
    are not modelled; these functions compute the attribute values handed to them. */
module Graphviz {
  import opened Wrappers
  import Options
  import Config
  import Cardinality
  import Entities
  import Relationships
  import Mermaid
  import Strings

  // ---------------------------------------------------------------------------
  // Cardinality styles

  /** The keys of `CARDINALITY_STYLES`. */
  datatype Notation = Simple | Uml | Bachman

  /** `CARDINALITY_STYLES[options.notation]`: the styles are keyed by symbol, so any other
      value (nil, a string, an unknown symbol) finds no style. */
  function NotationOf(v: Options.Value): (r: Option<Notation>)
    ensures r == Some(Simple) <==> v == Options.Sym("simple")
    ensures r == Some(Uml) <==> v == Options.Sym("uml")
    ensures r == Some(Bachman) <==> v == Options.Sym("bachman")
  {
    if v == Options.Sym("simple") then Some(Simple)
    else if v == Options.Sym("uml") then Some(Uml)
    else if v == Options.Sym("bachman") then Some(Bachman)
    else None
  }

  /** What a style lambda writes into the edge options: the arrow size (as its decimal
      text), the head and tail arrow shapes, and the UML head and tail labels. */
  datatype Ends = Ends(arrowsize: Option<string>, head: string, tail: string, headLabel: Option<string>, tailLabel: Option<string>)

  /** The UML rendering of N, character for character as the source literal is stored:
      the UTF-8 bytes of an asterisk operator read once more as Windows-1252 text, which
      gives the three characters U+00E2 U+02C6 U+2014. */
  const Asterisk: string := "\U{00E2}\U{02C6}\U{2014}"

  /** A UML range label: "min" when the range is a single value, else "min..max" with the
      asterisk for N. Ruby's `Range#min` and `#max` are both nil for a range whose end
      lies below its start, so such a range is labelled with the empty string. */
  function RangeLabel(r: Cardinality.Range): (s: string)
    ensures r.last == Cardinality.Fin(r.first) ==> s == Strings.IntToString(r.first)
    ensures r.last == Cardinality.Inf ==> s == Strings.IntToString(r.first) + ".." + Asterisk
    ensures (r.last.Fin? && r.last.n > r.first) ==> s == Strings.IntToString(r.first) + ".." + Strings.IntToString(r.last.n)
    ensures (r.last.Fin? && r.last.n < r.first) ==> s == ""
  {
    match r.last
    case Inf => Strings.IntToString(r.first) + ".." + Asterisk
    case Fin(n) =>
      if n < r.first then ""
      else if n == r.first then Strings.IntToString(r.first)
      else Strings.IntToString(r.first) + ".." + Strings.IntToString(n)
  }

  /** Reading a UML label back into a range: one number is a single-value range, and
      "min..max" a span whose max is N when it is the asterisk. */
  function ParseLabel(s: string): (r: Option<Cardinality.Range>)
    ensures r.Some? ==> |Strings.Split(s, ".")| in {1, 3}
  {
    var parts := Strings.Split(s, ".");
    if |parts| == 1 then
      var n := Strings.ToI(parts[0]);
      Some(Cardinality.Range(n, Cardinality.Fin(n)))
    else if |parts| == 3 && parts[1] == "" then
      Some(Cardinality.Range(Strings.ToI(parts[0]),
                             if parts[2] == Asterisk then Cardinality.Inf else Cardinality.Fin(Strings.ToI(parts[2]))))
    else None
  }

  lemma NoDotInInteger(n: int)
    ensures '.' !in Strings.IntToString(n) && Strings.IntToString(n) != ""
  {
    if n < 0 {
      Config.NoDotInNumber(-n);
      assert Strings.IntToString(n) == "-" + Strings.IntToString(-n);
    } else {
      Config.NoDotInNumber(n);
    }
  }

  lemma SpanLabel(a: string, b: string)
    requires '.' !in a && '.' !in b && b != ""
    ensures Strings.Split(a + ".." + b, ".") == [a, "", b]
  {
    assert Strings.Join([b], ".") == b;
    assert Strings.Join(["", b], ".") == "." + b;
    assert Strings.Join([a, "", b], ".") == a + ".." + b;
    Strings.SplitJoin([a, "", b], '.');
  }

  /** Every range whose end is not below its start is told back from its label. */
  lemma LabelRoundTrip(r: Cardinality.Range)
    requires r.last.Inf? || r.last.n >= r.first
    ensures ParseLabel(RangeLabel(r)) == Some(r)
  {
    match r.last
    case Inf => OpenLabelRoundTrip(r.first);
    case Fin(n) =>
      if n == r.first {
        SingleLabelRoundTrip(n);
      } else {
        SpanLabelRoundTrip(r.first, n);
      }
  }

  lemma SingleLabelRoundTrip(n: int)
    ensures ParseLabel(Strings.IntToString(n)) == Some(Cardinality.Range(n, Cardinality.Fin(n)))
  {
    var a := Strings.IntToString(n);
    NoDotInInteger(n);
    Strings.ToIIntToString(n);
    assert Strings.Join([a], ".") == a;
    Strings.SplitJoin([a], '.');
  }

  lemma OpenLabelRoundTrip(n: int)
    ensures ParseLabel(Strings.IntToString(n) + ".." + Asterisk) == Some(Cardinality.Range(n, Cardinality.Inf))
  {
    NoDotInInteger(n);
    Strings.ToIIntToString(n);
    assert '.' !in Asterisk;
    SpanLabel(Strings.IntToString(n), Asterisk);
  }

  lemma SpanLabelRoundTrip(m: int, n: int)
    ensures ParseLabel(Strings.IntToString(m) + ".." + Strings.IntToString(n)) == Some(Cardinality.Range(m, Cardinality.Fin(n)))
  {
    var b := Strings.IntToString(n);
    NoDotInInteger(m);
    NoDotInInteger(n);
    Strings.ToIIntToString(m);
    Strings.ToIIntToString(n);
    NotAsterisk(n);
    SpanLabel(Strings.IntToString(m), b);
  }

  lemma NotAsterisk(n: int)
    ensures Strings.IntToString(n) != Asterisk
  {
    var b := Strings.IntToString(n);
    if n < 0 {
      assert b[0] == '-';
    } else {
      assert Strings.IsDigit(Strings.NatToString(n)[0]);
    }
  }

  /** The simple and UML arrow: the shape when that end is "many", else none. */
  function ManyArrow(many: bool, shape: string): (s: string)
    ensures s == shape <==> (many || shape == "none")
    ensures s == "none" <==> (!many || shape == "none")
  {
    if many then shape else "none"
  }

  /** A Bachman end: an open dot when the participation at the opposite end is optional,
      a closed one otherwise, followed by an arrow when this end is "many". */
  function BachmanEnd(oppositeOptional: bool, many: bool): (s: string)
    ensures s == "odot" || s == "dot" || s == "odotnormal" || s == "dotnormal"
    ensures (s[0] == 'o') <==> oppositeOptional
    ensures (|s| > 4) <==> many
  {
    (if oppositeOptional then "odot" else "dot") + (if many then "normal" else "")
  }

  /** The `CARDINALITY_STYLES` lambda of each notation, applied to a cardinality. The
      head is drawn at the destination and the tail at the source. */
  function Style(n: Notation, c: Cardinality.Cardinality): (e: Ends)
    ensures n == Simple ==> e.arrowsize.None? && e.headLabel.None? && e.tailLabel.None?
    ensures n == Uml ==> e.arrowsize == Some("0.7")
                         && e.headLabel == Some(RangeLabel(c.destination))
                         && e.tailLabel == Some(RangeLabel(c.source))
    ensures n == Bachman ==> e.arrowsize == Some("0.6") && e.headLabel.None? && e.tailLabel.None?
  {
    var toMany := Cardinality.DestinationClass(c) != Cardinality.One;
    var manyTo := Cardinality.SourceClass(c) != Cardinality.One;
    match n
    case Simple => Ends(None, ManyArrow(toMany, "normal"), ManyArrow(manyTo, "normal"), None, None)
    case Uml => Ends(Some("0.7"), ManyArrow(toMany, "vee"), ManyArrow(manyTo, "vee"),
                     Some(RangeLabel(c.destination)), Some(RangeLabel(c.source)))
    case Bachman => Ends(Some("0.6"), BachmanEnd(Cardinality.SourceOptional(c), toMany),
                         BachmanEnd(Cardinality.DestinationOptional(c), manyTo), None, None)
  }

  /** Which end of the edge carries an arrow, in every notation: the head exactly when the
      destination side is "many", the tail exactly when the source side is. */
  lemma StyleArrows(n: Notation, c: Cardinality.Cardinality)
    ensures n != Bachman ==> (Style(n, c).head != "none" <==> Cardinality.DestinationClass(c) == Cardinality.Many)
    ensures n != Bachman ==> (Style(n, c).tail != "none" <==> Cardinality.SourceClass(c) == Cardinality.Many)
    ensures n == Bachman ==> (|Style(n, c).head| > 4 <==> Cardinality.DestinationClass(c) == Cardinality.Many)
    ensures n == Bachman ==> (|Style(n, c).tail| > 4 <==> Cardinality.SourceClass(c) == Cardinality.Many)
    ensures n == Bachman ==> (Style(n, c).head[0] == 'o' <==> Cardinality.SourceOptional(c))
    ensures n == Bachman ==> (Style(n, c).tail[0] == 'o' <==> Cardinality.DestinationOptional(c))
  {
  }

  /** The head and tail of an edge exchanged. */
  function Swap(e: Ends): (r: Ends)
    ensures r.head == e.tail && r.tail == e.head && r.headLabel == e.tailLabel && r.tailLabel == e.headLabel
    ensures r.arrowsize == e.arrowsize
  {
    Ends(e.arrowsize, e.tail, e.head, e.tailLabel, e.headLabel)
  }

  /** Every notation draws the inverse cardinality as the mirror image of the edge. */
  lemma StyleInverse(n: Notation, c: Cardinality.Cardinality)
    ensures Style(n, Cardinality.Inverse(c)) == Swap(Style(n, c))
  {
  }

  // ---------------------------------------------------------------------------
  // Relationship edges

  /** The options of a relationship edge: the style's ends, the weight, and for an indirect
      relationship a dotted line that does not constrain the ranks. */
  datatype EdgeOptions = EdgeOptions(ends: Ends, style: Option<string>, weight: nat, constraint: Option<bool>)

  /** `relationship_options`. An unknown notation has no style lambda to call, and Ruby
      raises. */
  function RelationshipOptions(o: Options.Options, r: Relationships.Relationship): (e: Result<EdgeOptions>)
    requires r.source.Some?
    ensures e.Failure? <==> NotationOf(Options.Get(o, "notation")).None?
    ensures e.Success? ==> e.value.weight == Relationships.Strength(r)
    ensures e.Success? ==> (e.value.style == Some("dotted") <==> Relationships.Indirect(r))
    ensures e.Success? ==> (e.value.constraint == Some(false) <==> Relationships.Indirect(r))
    ensures e.Success? ==> e.value.style.None? || e.value.style == Some("dotted")
    ensures e.Success? ==> e.value.constraint.None? || e.value.constraint == Some(false)
    ensures e.Success? ==> e.value.ends == Style(NotationOf(Options.Get(o, "notation")).value, Relationships.RelCardinality(r))
  {
    match NotationOf(Options.Get(o, "notation"))
    case None => Failure("undefined method `[]' for nil")
    case Some(n) =>
      var indirect := Relationships.Indirect(r);
      Success(EdgeOptions(Style(n, Relationships.RelCardinality(r)),
                          if indirect then Some("dotted") else None,
                          Relationships.Strength(r),
                          if indirect then Some(false) else None))
  }

  /** The simple notation and the Mermaid arrow agree: the edge has a head exactly when the
      Mermaid arrow ends in ">", and a tail exactly when it starts with "<". */
  lemma SimpleAgreesWithMermaid(r: Relationships.Relationship)
    ensures var m := Mermaid.ParseArrow(Mermaid.RelationArrow(r));
            && (Style(Simple, Relationships.RelCardinality(r)).head == "normal" <==> m.2)
            && (Style(Simple, Relationships.RelCardinality(r)).tail == "normal" <==> m.0)
  {
    Mermaid.RelationArrowRoundTrip(r);
    var c := Relationships.RelCardinality(r);
    assert Relationships.ToMany(r) <==> Cardinality.DestinationClass(c) != Cardinality.One;
    assert Relationships.ManyTo(r) <==> Cardinality.SourceClass(c) != Cardinality.One;
  }

  /** `entity_style_options`: specialized entities are drawn in grey. */
  function EntityColor(e: Entities.Entity): (c: Option<string>)
    ensures c.Some? ==> c == Some("grey60")
    ensures c.Some? <==> Entities.Specialized(e)
  {
    if Entities.Specialized(e) then Some("grey60") else None
  }

  // ---------------------------------------------------------------------------
  // Graph attributes

  /** `title`: false gives no title, true the domain's name followed by " domain model"
      (or "Domain model" for a domain without a name), and anything else is used as
      given. */
  function Title(o: Options.Options, domainName: Option<string>): (t: Options.Value)
    ensures Options.Get(o, "title") == Options.Bool(false) ==> t == Options.Nil
    ensures Options.Get(o, "title") == Options.Bool(true) ==>
              t == Options.Str(if domainName.Some? then domainName.value + " domain model" else "Domain model")
    ensures !Options.Get(o, "title").Bool? ==> t == Options.Get(o, "title")
  {
    match Options.Get(o, "title")
    case Bool(b) =>
      if !b then Options.Nil
      else if domainName.Some? then Options.Str(domainName.value + " domain model")
      else Options.Str("Domain model")
    case v => v
  }

  /** The graph's `label`: the title followed by two escaped line breaks, when there is a
      title. */
  function Label(o: Options.Options, domainName: Option<string>): (l: Option<string>)
    ensures l.Some? <==> Options.Truthy(Title(o, domainName))
    ensures l.Some? ==> |l.value| >= 4 && l.value[|l.value| - 4..] == "\\n\\n"
  {
    var t := Title(o, domainName);
    if Options.Truthy(t) then Some(Config.ToS(t) + "\\n\\n") else None
  }

  /** When the graph has a label: for every title except false and nil. */
  lemma LabelPresent(o: Options.Options, domainName: Option<string>)
    ensures Label(o, domainName).None? <==> Options.Get(o, "title") in {Options.Bool(false), Options.Nil}
    ensures Options.Get(o, "title") == Options.Bool(true) && domainName.Some? ==>
              Label(o, domainName) == Some(domainName.value + " domain model\\n\\n")
  {
    if Options.Get(o, "title") == Options.Bool(true) && domainName.Some? {
      assert domainName.value + " domain model" + "\\n\\n" == domainName.value + " domain model\\n\\n";
    }
  }

  /** `filetype`: the file type option as a symbol, except that "dot" becomes "none" (the
      graph is written as dot source). A value without `to_sym` raises. */
  function Filetype(o: Options.Options): (r: Result<string>)
    ensures r.Success? <==> (Options.Get(o, "filetype").Str? || Options.Get(o, "filetype").Sym?)
    ensures r.Success? ==> (r.value == "none" <==> Config.ToS(Options.Get(o, "filetype")) in {"dot", "none"})
    ensures r.Success? && Config.ToS(Options.Get(o, "filetype")) != "dot" ==> r.value == Config.ToS(Options.Get(o, "filetype"))
  {
    match Options.Get(o, "filetype")
    case Str(s) => Success(if s == "dot" then "none" else s)
    case Sym(s) => Success(if s == "dot" then "none" else s)
    case _ => Failure("undefined method `to_sym'")
  }

  /** `filename`: the file name option and the file type option's text, joined by a dot.
      The extension is the option as given, so a dot file keeps its ".dot". */
  function Filename(o: Options.Options): (r: string)
    ensures Options.Get(o, "filename").Str? && Options.Get(o, "filetype").Sym? ==>
              r == Options.Get(o, "filename").s + "." + Options.Get(o, "filetype").name
  {
    Config.ToS(Options.Get(o, "filename")) + "." + Config.ToS(Options.Get(o, "filetype"))
  }

  /** A dot diagram is handed to Graphviz with the output type "none" but is saved under the
      ".dot" extension; any other type is both the output type and the extension. */
  lemma FilenameMatchesFiletype(o: Options.Options, name: string, t: string)
    requires Options.Get(o, "filename") == Options.Str(name) && Options.Get(o, "filetype") == Options.Sym(t)
    ensures t == "dot" ==> Filetype(o) == Success("none") && Filename(o) == name + ".dot"
    ensures t !in {"dot", "none"} ==> Filetype(o) == Success(t) && Filename(o) == name + "." + Filetype(o).value
  {
  }

  /** `horizontal?`: the orientation option is the symbol `:horizontal`. */
  predicate Horizontal(o: Options.Options) {
    Options.Get(o, "orientation") == Options.Sym("horizontal")
  }

  /** The graph's `rankdir`: left to right by default, top to bottom unless the diagram is
      horizontal. */
  function Rankdir(o: Options.Options): (r: string)
    ensures r in {"LR", "TB"}
    ensures r == "LR" <==> Horizontal(o)
  {
    var graphDefault := "LR";
    if !Horizontal(o) then "TB" else graphDefault
  }

  /** The orientations the diagram is drawn in: `:horizontal` left to right, `:vertical` and
      a missing orientation top to bottom. The string "horizontal" is not the symbol and is
      drawn top to bottom too. */
  lemma RankdirCases(o: Options.Options)
    ensures Options.Get(o, "orientation") == Options.Sym("horizontal") ==> Rankdir(o) == "LR"
    ensures Options.Get(o, "orientation") in {Options.Sym("vertical"), Options.Nil, Options.Str("horizontal")} ==> Rankdir(o) == "TB"
  {
  }

  /** An orientation of "horizontal" read from a configuration file, written as a string or
      as a symbol, is stored as the string "horizontal", so the diagram is drawn top to
      bottom. */
  lemma ConfiguredOrientation(o: Options.Options, entries: seq<(string, Options.Value)>)
    requires Config.LoadEntries(o, entries).Success?
    requires Config.LastEntry(entries, "orientation") in {Some(Options.Str("horizontal")), Some(Options.Sym("horizontal"))}
    ensures Options.Get(Config.LoadEntries(o, entries).value, "orientation") == Options.Str("horizontal")
    ensures Rankdir(Config.LoadEntries(o, entries).value) == "TB"
  {
    Config.LoadEntriesValue(o, entries, "orientation");
  }
}
