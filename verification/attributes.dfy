/** Attributes: one per database column of a model, classified (primary key, foreign key,
    timestamp, inheritance column, content) and described for display. */
module Attributes {
  import opened Wrappers
  import opened Schema
  import Seqs
  import Strings

  /** The conventional Rails timestamp column names. */
  const TimestampNames: seq<string> := ["created_at", "created_on", "updated_at", "updated_on"]

  /** The marker appended to a mandatory non-key attribute: a hair space (U+200A) followed
      by an asterisk operator (U+2217). */
  const MandatoryMarker: string := "\U{200A}\U{2217}"

  datatype Attribute = Attribute(model: Model, column: Column)

  function Name(a: Attribute): string {
    a.column.name
  }

  /** `type`: the Rails type of the column, or its downcased SQL type when Rails has none. */
  function Type(a: Attribute): (t: string)
    ensures a.column.kind.Some? ==> t == a.column.kind.value
    ensures a.column.kind.None? ==>
              && |t| == |a.column.sqlType|
              && forall i | 0 <= i < |t| ::
                   && !('A' <= t[i] <= 'Z')
                   && (t[i] == a.column.sqlType[i] || t[i] as int == a.column.sqlType[i] as int + 32)
  {
    if a.column.kind.Some? then a.column.kind.value else Strings.Downcase(a.column.sqlType)
  }

  // ---------------------------------------------------------------------------
  // Classification

  predicate IsTimestamp(a: Attribute) {
    Name(a) in TimestampNames
  }

  predicate IsPrimaryKey(a: Attribute) {
    a.model.primaryKey == Name(a)
  }

  predicate IsInheritance(a: Attribute) {
    a.model.inheritanceColumn == Name(a)
  }

  /** `foreign_key?`, given the foreign keys of every association in a relationship that
      touches the attribute's model (`Domain.ForeignKeys` computes them). */
  predicate IsForeignKey(a: Attribute, foreignKeys: seq<string>) {
    Name(a) in foreignKeys
  }

  predicate HasValidator(a: Attribute, kind: ValidatorKind) {
    exists v | v in ValidatorsOn(a.model.validators, Name(a)) :: v.kind == kind
  }

  /** `mandatory?`: a NOT NULL column or a presence validation. */
  predicate IsMandatory(a: Attribute) {
    !a.column.nullable || HasValidator(a, Presence)
  }

  predicate IsUnique(a: Attribute) {
    HasValidator(a, Uniqueness)
  }

  /** `content?`. */
  predicate IsContent(a: Attribute, foreignKeys: seq<string>) {
    !IsPrimaryKey(a) && !IsForeignKey(a, foreignKeys) && !IsTimestamp(a) && !IsInheritance(a)
  }

  /** A content attribute is none of the four kinds of key or bookkeeping column; the
      timestamp test is an exact match on one of the four names. */
  lemma ContentClassification(a: Attribute, foreignKeys: seq<string>)
    ensures IsContent(a, foreignKeys) <==>
              Name(a) != a.model.primaryKey && Name(a) !in foreignKeys && Name(a) != a.model.inheritanceColumn
              && Name(a) != "created_at" && Name(a) != "created_on" && Name(a) != "updated_at" && Name(a) != "updated_on"
  {
  }

  /** The mandatory and unique flags read the validators declared on this column only. */
  lemma MandatoryFromValidators(a: Attribute)
    ensures IsMandatory(a) <==> !a.column.nullable || exists v | v in a.model.validators :: Name(a) in v.attributes && v.kind == Presence
    ensures IsUnique(a) <==> exists v | v in a.model.validators :: Name(a) in v.attributes && v.kind == Uniqueness
  {
  }

  // ---------------------------------------------------------------------------
  // Limit and scale

  /** `native_type`: the connection's defaults for the attribute's type; `{}` (every entry
      nil) for a type the connection does not know. */
  function Native(a: Attribute): (n: NativeType)
    ensures Type(a) !in a.model.nativeTypes ==> n == NativeType(Nil, Nil, Nil)
    ensures Type(a) in a.model.nativeTypes ==> n == a.model.nativeTypes[Type(a)]
  {
    if Type(a) in a.model.nativeTypes then a.model.nativeTypes[Type(a)] else NativeType(Nil, Nil, Nil)
  }

  /** `respond_to?(:to_i)`: nil and integers do, a Hash or a Range does not. */
  predicate RespondsToI(m: Meta) {
    !m.Opaque?
  }

  /** `to_i` (nil gives 0). */
  function ToI(m: Meta): int
    requires RespondsToI(m)
  {
    if m.Int? then m.i else 0
  }

  /** `limit`: a limit that differs from the native one, else a precision that differs from
      the native one, provided the value converts to an integer. */
  function Limit(a: Attribute): (r: Option<int>)
    ensures a.column.limit != Native(a).limit && RespondsToI(a.column.limit) ==> r == Some(ToI(a.column.limit))
    ensures !(a.column.limit != Native(a).limit && RespondsToI(a.column.limit)) ==>
              (r.Some? <==> a.column.precision != Native(a).precision && RespondsToI(a.column.precision))
    ensures !(a.column.limit != Native(a).limit && RespondsToI(a.column.limit)) && r.Some? ==> r.value == ToI(a.column.precision)
  {
    var c := a.column;
    var n := Native(a);
    if c.limit != n.limit && RespondsToI(c.limit) then Some(ToI(c.limit))
    else if c.precision != n.precision && RespondsToI(c.precision) then Some(ToI(c.precision))
    else None
  }

  /** `scale`: a scale that differs from the native one, else 0 when a precision is set. */
  function Scale(a: Attribute): (r: Option<int>)
    ensures a.column.scale != Native(a).scale && RespondsToI(a.column.scale) ==> r == Some(ToI(a.column.scale))
    ensures !(a.column.scale != Native(a).scale && RespondsToI(a.column.scale)) ==>
              r == (if a.column.precision != Nil then Some(0) else None)
  {
    var c := a.column;
    if c.scale != Native(a).scale && RespondsToI(c.scale) then Some(ToI(c.scale))
    else if c.precision != Nil then Some(0)
    else None
  }

  /** A column whose limit and precision both equal the native ones shows no limit. */
  lemma DefaultLimitHidden(a: Attribute)
    requires a.column.limit == Native(a).limit && a.column.precision == Native(a).precision
    ensures Limit(a).None?
  {
  }

  /** A limit with no `to_i`, such as a Hash, is never shown; the precision is consulted
      instead. */
  lemma OpaqueLimitSkipped(a: Attribute)
    requires a.column.limit.Opaque?
    ensures Limit(a) == (if a.column.precision != Native(a).precision && RespondsToI(a.column.precision)
                         then Some(ToI(a.column.precision)) else None)
  {
  }

  /** `limit_description`: `(l,s)` when both a limit and a scale exist, `(l)` with a limit
      alone, nothing without a limit. */
  function LimitDescription(a: Attribute): (r: Option<string>)
    ensures r.Some? <==> Limit(a).Some?
  {
    var l := Limit(a);
    var s := Scale(a);
    if l.Some? && s.Some? then Some("(" + Strings.IntToString(l.value) + "," + Strings.IntToString(s.value) + ")")
    else if l.Some? then Some("(" + Strings.IntToString(l.value) + ")")
    else None
  }

  /** Reads a limit description back: the parenthesised, comma-separated integers. */
  function ParseLimitDescription(s: string): Option<(int, Option<int>)> {
    if |s| < 2 || s[0] != '(' || s[|s| - 1] != ')' then None
    else
      var fields := Strings.Split(s[1..|s| - 1], ",");
      if |fields| == 1 then Some((Strings.ToI(fields[0]), None))
      else if |fields| == 2 then Some((Strings.ToI(fields[0]), Some(Strings.ToI(fields[1]))))
      else None
  }

  lemma NoCommaInNumber(n: int)
    ensures ',' !in Strings.IntToString(n) && Strings.IntToString(n) != ""
  {
    var d := Strings.NatToString(if n < 0 then -n else n);
    assert forall i | 0 <= i < |d| :: d[i] != ',' by {
      forall i | 0 <= i < |d| ensures d[i] != ',' {
        assert Strings.IsDigit(d[i]);
      }
    }
    if n < 0 {
      assert Strings.IntToString(n) == "-" + d;
      assert forall i | 0 <= i < |"-" + d| :: ("-" + d)[i] != ',' by {
        forall i | 0 <= i < |"-" + d| ensures ("-" + d)[i] != ',' {
          if i > 0 { assert ("-" + d)[i] == d[i - 1]; }
        }
      }
    }
  }

  lemma ParseOne(n: int)
    ensures ParseLimitDescription("(" + Strings.IntToString(n) + ")") == Some((n, None))
  {
    var ns := Strings.IntToString(n);
    NoCommaInNumber(n);
    Strings.ToIIntToString(n);
    var d := "(" + ns + ")";
    assert d[1..|d| - 1] == ns == Strings.Join([ns], [',']);
    Strings.SplitJoin([ns], ',');
  }

  lemma SplitTwo(ns: string, ms: string)
    requires ',' !in ns && ',' !in ms && ms != ""
    ensures Strings.Split(ns + "," + ms, ",") == [ns, ms]
  {
    assert Strings.Join([ms], [',']) == ms;
    assert Strings.Join([ns, ms], [',']) == ns + "," + ms;
    Strings.SplitJoin([ns, ms], ',');
  }

  lemma ParseTwo(n: int, m: int)
    ensures ParseLimitDescription("(" + Strings.IntToString(n) + "," + Strings.IntToString(m) + ")") == Some((n, Some(m)))
  {
    var ns := Strings.IntToString(n);
    var ms := Strings.IntToString(m);
    NoCommaInNumber(n);
    NoCommaInNumber(m);
    Seqs.Bracketed("(", ns, ",", ms, ")");
    SplitTwo(ns, ms);
    Strings.ToIIntToString(n);
    Strings.ToIIntToString(m);
  }

  /** The limit description carries exactly the limit and, when there is one alongside it,
      the scale. */
  lemma LimitDescriptionRoundTrip(a: Attribute)
    requires LimitDescription(a).Some?
    ensures ParseLimitDescription(LimitDescription(a).value)
            == Some((Limit(a).value, if Scale(a).Some? then Some(Scale(a).value) else None))
  {
    if Scale(a).Some? {
      ParseTwo(Limit(a).value, Scale(a).value);
    } else {
      ParseOne(Limit(a).value);
    }
  }

  // ---------------------------------------------------------------------------
  // Type description

  /** The markers after the type and limit: mandatory, unique, PK, FK, in that order. */
  function Markers(mandatory: bool, unique: bool, pk: bool, fk: bool): string {
    (if mandatory then MandatoryMarker else "")
    + (if unique then " U" else "")
    + (if pk then " PK" else "")
    + (if fk then " FK" else "")
  }

  /** `type_description`: the type, the limit description, then the markers; the mandatory
      marker is dropped on a primary key, and the unique one on any key. */
  function TypeDescription(a: Attribute, foreignKeys: seq<string>): (r: string)
    ensures Strings.StartsWith(r, Type(a))
    ensures LimitDescription(a).Some? ==> Strings.StartsWith(r, Type(a) + " " + LimitDescription(a).value)
    ensures LimitDescription(a).None? ==>
              r == Type(a) + Markers(IsMandatory(a) && !IsPrimaryKey(a),
                                     IsUnique(a) && !IsPrimaryKey(a) && !IsForeignKey(a, foreignKeys),
                                     IsPrimaryKey(a), IsForeignKey(a, foreignKeys))
  {
    var pk := IsPrimaryKey(a);
    var fk := IsForeignKey(a, foreignKeys);
    var ld := LimitDescription(a);
    var tail := if ld.Some? then " " + ld.value else "";
    var markers := Markers(IsMandatory(a) && !pk, IsUnique(a) && !pk && !fk, pk, fk);
    DescriptionShape(Type(a), ld, tail, markers);
    Type(a) + tail + markers
  }

  lemma DescriptionShape(t: string, ld: Option<string>, tail: string, markers: string)
    requires tail == if ld.Some? then " " + ld.value else ""
    ensures Strings.StartsWith(t + tail + markers, t)
    ensures ld.Some? ==> Strings.StartsWith(t + tail + markers, t + " " + ld.value)
    ensures ld.None? ==> t + tail + markers == t + markers
  {
    Strings.StartsWithAppend(t, tail, markers);
    if ld.Some? {
      assert t + tail == t + " " + ld.value;
    } else {
      assert t + tail == t;
    }
  }

  /** Reads the markers back off the end of a description: the text before them and the
      four flags. */
  function ParseMarkers(s: string): (string, bool, bool, bool, bool) {
    var f := DropSuffix(s, " FK");
    var p := DropSuffix(f.0, " PK");
    var u := DropSuffix(p.0, " U");
    var m := DropSuffix(u.0, MandatoryMarker);
    (m.0, m.1, u.1, p.1, f.1)
  }

  function DropSuffix(s: string, suffix: string): (r: (string, bool))
    ensures r.1 ==> s == r.0 + suffix
    ensures !r.1 ==> r.0 == s
  {
    if |suffix| <= |s| && s[|s| - |suffix|..] == suffix then (s[..|s| - |suffix|], true) else (s, false)
  }

  /** Appending a suffix (or not) to a text that does not already end with it is undone
      by `DropSuffix`. */
  lemma DropAppended(x: string, suffix: string, flag: bool)
    requires |suffix| > 0
    requires |x| < |suffix| || x[|x| - |suffix|..] != suffix
    ensures DropSuffix(if flag then x + suffix else x, suffix) == (x, flag)
  {
    if flag {
      var y := x + suffix;
      assert y[|y| - |suffix|..] == suffix;
      assert y[..|y| - |suffix|] == x;
    }
  }

  /** A text not ending in a marker character; the markers can be peeled off it. */
  predicate PlainEnd(x: string, banned: set<char>) {
    |x| == 0 || x[|x| - 1] !in banned
  }

  lemma PeelMandatory(head: string, mandatory: bool)
    requires PlainEnd(head, {'K', 'U', '\U{2217}'})
    ensures var m := if mandatory then head + MandatoryMarker else head;
            PlainEnd(m, {'K', 'U'}) && DropSuffix(m, MandatoryMarker) == (head, mandatory)
  {
    assert |head| < 2 || head[|head| - 2..][1] == head[|head| - 1];
    DropAppended(head, MandatoryMarker, mandatory);
  }

  lemma PeelUnique(m: string, unique: bool)
    requires PlainEnd(m, {'K', 'U'})
    ensures var u := if unique then m + " U" else m;
            PlainEnd(u, {'K'}) && DropSuffix(u, " U") == (m, unique)
  {
    assert |m| < 2 || m[|m| - 2..][1] == m[|m| - 1];
    DropAppended(m, " U", unique);
  }

  lemma PeelPrimary(u: string, pk: bool)
    requires PlainEnd(u, {'K'})
    ensures var p := if pk then u + " PK" else u;
            (|p| < 3 || p[|p| - 3..] != " FK") && DropSuffix(p, " PK") == (u, pk)
  {
    assert |u| < 3 || u[|u| - 3..][2] == u[|u| - 1];
    DropAppended(u, " PK", pk);
    var p := if pk then u + " PK" else u;
    if pk {
      assert p[|p| - 3..][1] == 'P';
    } else {
      assert |p| < 3 || p[|p| - 3..][2] == p[|p| - 1];
    }
  }

  /** The markers can be read back from any text that does not itself end in a marker
      character (a type name, or a limit description ending in ")"). */
  lemma MarkersRoundTrip(head: string, mandatory: bool, unique: bool, pk: bool, fk: bool)
    requires PlainEnd(head, {'K', 'U', '\U{2217}'})
    ensures ParseMarkers(head + Markers(mandatory, unique, pk, fk)) == (head, mandatory, unique, pk, fk)
  {
    var m := if mandatory then head + MandatoryMarker else head;
    var u := if unique then m + " U" else m;
    var p := if pk then u + " PK" else u;
    var f := if fk then p + " FK" else p;
    MarkersAppend(head, mandatory, unique, pk, fk);
    PeelMandatory(head, mandatory);
    PeelUnique(m, unique);
    PeelPrimary(u, pk);
    DropAppended(p, " FK", fk);
    ParseMarkersSteps(f, p, u, m, head, mandatory, unique, pk, fk);
  }

  lemma ParseMarkersSteps(f: string, p: string, u: string, m: string, head: string, mandatory: bool, unique: bool, pk: bool, fk: bool)
    requires DropSuffix(f, " FK") == (p, fk) && DropSuffix(p, " PK") == (u, pk)
    requires DropSuffix(u, " U") == (m, unique) && DropSuffix(m, MandatoryMarker) == (head, mandatory)
    ensures ParseMarkers(f) == (head, mandatory, unique, pk, fk)
  {
  }

  lemma MarkersAppend(head: string, mandatory: bool, unique: bool, pk: bool, fk: bool)
    ensures var m := if mandatory then head + MandatoryMarker else head;
            var u := if unique then m + " U" else m;
            var p := if pk then u + " PK" else u;
            head + Markers(mandatory, unique, pk, fk) == if fk then p + " FK" else p
  {
    var a := if mandatory then MandatoryMarker else "";
    var b := if unique then " U" else "";
    var c := if pk then " PK" else "";
    var d := if fk then " FK" else "";
    assert Markers(mandatory, unique, pk, fk) == a + b + c + d;
    Seqs.AppendFour(head, a, b, c, d);
    assert (if mandatory then head + MandatoryMarker else head) == head + a;
  }

  /** The description states exactly which markers apply: a mandatory marker for a
      mandatory non-primary-key, `U` for a unique non-key, `PK` and `FK` for the keys. */
  lemma DescriptionMarkers(a: Attribute, foreignKeys: seq<string>)
    requires LimitDescription(a).Some? || PlainEnd(Type(a), {'K', 'U', '\U{2217}'})
    ensures var (_, mandatory, unique, pk, fk) := ParseMarkers(TypeDescription(a, foreignKeys));
            && (mandatory <==> IsMandatory(a) && !IsPrimaryKey(a))
            && (unique <==> IsUnique(a) && !IsPrimaryKey(a) && !IsForeignKey(a, foreignKeys))
            && (pk <==> IsPrimaryKey(a))
            && (fk <==> IsForeignKey(a, foreignKeys))
    ensures ParseMarkers(TypeDescription(a, foreignKeys)).0
            == Type(a) + (if LimitDescription(a).Some? then " " + LimitDescription(a).value else "")
  {
    var ld := LimitDescription(a);
    var head := Type(a) + (if ld.Some? then " " + ld.value else "");
    if ld.Some? {
      var l := Limit(a).value;
      assert ld.value[|ld.value| - 1] == ')';
      assert head[|head| - 1] == ')';
    }
    MarkersRoundTrip(head, IsMandatory(a) && !IsPrimaryKey(a), IsUnique(a) && !IsPrimaryKey(a) && !IsForeignKey(a, foreignKeys),
                     IsPrimaryKey(a), IsForeignKey(a, foreignKeys));
  }

  /** The whole description reads back: the type, then (after one space) the limit and the
      scale when there is a limit, then the markers. */
  lemma DescriptionRoundTrip(a: Attribute, foreignKeys: seq<string>)
    requires LimitDescription(a).Some? || PlainEnd(Type(a), {'K', 'U', '\U{2217}'})
    ensures var head := ParseMarkers(TypeDescription(a, foreignKeys)).0;
            && Strings.StartsWith(head, Type(a))
            && (LimitDescription(a).None? ==> head == Type(a))
            && (LimitDescription(a).Some? ==>
                  && |head| > |Type(a)| && head[|Type(a)|] == ' '
                  && ParseLimitDescription(head[|Type(a)| + 1..])
                     == Some((Limit(a).value, if Scale(a).Some? then Some(Scale(a).value) else None)))
  {
    DescriptionMarkers(a, foreignKeys);
    var head := ParseMarkers(TypeDescription(a, foreignKeys)).0;
    if LimitDescription(a).Some? {
      var ld := LimitDescription(a).value;
      assert head == Type(a) + " " + ld;
      assert head[..|Type(a)|] == Type(a);
      assert head[|Type(a)| + 1..] == ld;
      LimitDescriptionRoundTrip(a);
    }
  }

  // ---------------------------------------------------------------------------
  // The attribute list of a model

  predicate AttributeLe(a: Attribute, b: Attribute) {
    Strings.Le(Name(a), Name(b))
  }

  lemma AttributeLeTotalPreorder()
    ensures Seqs.TotalPreorder(AttributeLe)
  {
    forall a: Attribute, b: Attribute ensures AttributeLe(a, b) || AttributeLe(b, a) {
      Strings.LeTotal(a.column.name, b.column.name);
    }
    forall a: Attribute, b: Attribute, c: Attribute | AttributeLe(a, b) && AttributeLe(b, c) ensures AttributeLe(a, c) {
      Strings.LeTransitive(a.column.name, b.column.name, c.column.name);
    }
  }

  /** One attribute per column, in column order. */
  function OfColumns(model: Model, cols: seq<Column>): (r: seq<Attribute>)
    ensures |r| == |cols|
    ensures forall i | 0 <= i < |cols| :: r[i] == Attribute(model, cols[i])
  {
    if |cols| == 0 then [] else [Attribute(model, cols[0])] + OfColumns(model, cols[1..])
  }

  /** The first position holding an attribute of the given name. */
  function IndexOfName(s: seq<Attribute>, name: string): (r: Option<nat>)
    ensures r.None? <==> forall i | 0 <= i < |s| :: Name(s[i]) != name
    ensures r.Some? ==> r.value < |s| && Name(s[r.value]) == name
                        && forall i | 0 <= i < r.value :: Name(s[i]) != name
  {
    if |s| == 0 then None
    else if Name(s[0]) == name then Some(0)
    else
      var r := IndexOfName(s[1..], name);
      if r.Some? then Some(r.value + 1) else None
  }

  /** `prepend_primary`: exchanges the first attribute named after the primary key with the
      attribute at position 0; the list is unchanged when there is none. */
  function PrependPrimary(s: seq<Attribute>, primaryKey: string): (r: seq<Attribute>)
    ensures |r| == |s| && multiset(r) == multiset(s)
    ensures IndexOfName(s, primaryKey).None? ==> r == s
    ensures IndexOfName(s, primaryKey).Some? ==>
              var k := IndexOfName(s, primaryKey).value;
              && Name(r[0]) == primaryKey && r[0] == s[k] && r[k] == s[0]
              && forall i | 0 <= i < |s| && i != 0 && i != k :: r[i] == s[i]
  {
    match IndexOfName(s, primaryKey)
    case None => s
    case Some(k) =>
      SwapMultiset(s, k);
      s[0 := s[k]][k := s[0]]
  }

  lemma SwapMultiset<T>(s: seq<T>, k: nat)
    requires 0 < |s| && k < |s|
    ensures multiset(s[0 := s[k]][k := s[0]]) == multiset(s)
  {
    if k != 0 {
      Seqs.SwapShape(s, k);
      Seqs.MultisetOfFour([s[0]], s[1..k], [s[k]], s[k + 1..]);
      Seqs.MultisetOfFour([s[k]], s[1..k], [s[0]], s[k + 1..]);
    }
  }

  /** `Attribute.from_model`: one attribute per column, sorted by name under the `sort`
      option, then with the primary key swapped to the front under `prepend_primary`.
      `primaryKey` is what `ActiveRecord::Base.get_primary_key(model)` answers. */
  function FromModel(model: Model, sort: bool, prependPrimary: bool, primaryKey: string): (r: seq<Attribute>)
    ensures multiset(r) == multiset(OfColumns(model, model.columns))
    ensures !sort && !prependPrimary ==> r == OfColumns(model, model.columns)
    ensures sort && !prependPrimary ==> Seqs.SortedBy(AttributeLe, r)
    ensures (prependPrimary && exists i | 0 <= i < |model.columns| :: model.columns[i].name == primaryKey)
              ==> (|r| > 0 && Name(r[0]) == primaryKey)
  {
    var attrs := OfColumns(model, model.columns);
    AttributeLeTotalPreorder();
    var sorted := if sort then Seqs.Sort(attrs, AttributeLe) else attrs;
    if prependPrimary then
      NameSurvivesPermutation(model, attrs, sorted, primaryKey);
      PrependPrimary(sorted, primaryKey)
    else sorted
  }

  lemma NameSurvivesPermutation(model: Model, attrs: seq<Attribute>, t: seq<Attribute>, name: string)
    requires attrs == OfColumns(model, model.columns) && multiset(t) == multiset(attrs)
    ensures (exists i | 0 <= i < |model.columns| :: model.columns[i].name == name) ==> IndexOfName(t, name).Some?
  {
    if exists i | 0 <= i < |model.columns| :: model.columns[i].name == name {
      var i :| 0 <= i < |model.columns| && model.columns[i].name == name;
      assert attrs[i] in multiset(t);
      var j :| 0 <= j < |t| && t[j] == attrs[i];
    }
  }
}
