/** The `.erdconfig` loader: each key of a configuration file normalised by kind, the file in
    the current directory overriding the user-wide one; and the host test that picks the
    OS X font names. */
module Config {
  import opened Wrappers
  import opened Options
  import Strings
  import Seqs

  // ---------------------------------------------------------------------------
  // Ruby conversions used by the normaliser

  /** `Array(value)`: nil is empty, an array is itself, anything else is wrapped. */
  function ToArray(v: Value): (r: seq<Value>)
    ensures v.List? ==> r == v.items
    ensures v == Nil ==> r == []
    ensures !v.List? && v != Nil ==> r == [v]
  {
    match v
    case Nil => []
    case List(xs) => xs
    case _ => [v]
  }

  /** How `Array#join` writes one element: nested arrays are joined with the same
      separator, nil is empty. */
  function JoinText(v: Value, sep: string): string
    decreases v, 1
  {
    match v
    case Nil => ""
    case Bool(b) => if b then "true" else "false"
    case Int(i) => Strings.IntToString(i)
    case Str(s) => s
    case Sym(n) => n
    case List(xs) => JoinAll(xs, sep)
  }

  /** `Array#join(sep)`. */
  function JoinAll(xs: seq<Value>, sep: string): string
    decreases xs, 0
  {
    if |xs| == 0 then ""
    else if |xs| == 1 then JoinText(xs[0], sep)
    else JoinText(xs[0], sep) + sep + JoinAll(xs[1..], sep)
  }

  /** `inspect`, as `Array#to_s` writes its elements (string escapes are not modelled). */
  function Inspect(v: Value): string
    decreases v, 1
  {
    match v
    case Nil => "nil"
    case Bool(b) => if b then "true" else "false"
    case Int(i) => Strings.IntToString(i)
    case Str(s) => "\"" + s + "\""
    case Sym(n) => ":" + n
    case List(xs) => "[" + InspectAll(xs) + "]"
  }

  function InspectAll(xs: seq<Value>): string
    decreases xs, 0
  {
    if |xs| == 0 then ""
    else if |xs| == 1 then Inspect(xs[0])
    else Inspect(xs[0]) + ", " + InspectAll(xs[1..])
  }

  /** `to_s`. */
  function ToS(v: Value): string {
    match v
    case List(_) => Inspect(v)
    case Nil => ""
    case _ => JoinText(v, ",")
  }

  /** `to_sym`: only strings and symbols have it; anything else raises. */
  function ToSym(v: Value): (r: Result<Value>)
    ensures r.Success? <==> v.Str? || v.Sym?
    ensures v.Str? ==> r == Success(Sym(v.s))
    ensures v.Sym? ==> r == Success(v)
  {
    match v
    case Str(s) => Success(Sym(s))
    case Sym(_) => Success(v)
    case _ => Failure("undefined method `to_sym'")
  }

  function StrippedFields(s: string): (r: seq<string>)
    ensures |r| == |Strings.Split(s, ",")|
    ensures forall i | 0 <= i < |r| :: r[i] == Strings.Strip(Strings.Split(s, ",")[i])
  {
    StripAll(Strings.Split(s, ","))
  }

  function StripAll(fields: seq<string>): (r: seq<string>)
    ensures |r| == |fields| && forall i | 0 <= i < |r| :: r[i] == Strings.Strip(fields[i])
  {
    if |fields| == 0 then [] else [Strings.Strip(fields[0])] + StripAll(fields[1..])
  }

  function Strs(names: seq<string>): (r: seq<Value>)
    ensures |r| == |names| && forall i | 0 <= i < |r| :: r[i] == Str(names[i])
  {
    if |names| == 0 then [] else [Str(names[0])] + Strs(names[1..])
  }

  function Syms(names: seq<string>): (r: seq<Value>)
    ensures |r| == |names| && forall i | 0 <= i < |r| :: r[i] == Sym(names[i])
  {
    if |names| == 0 then [] else [Sym(names[0])] + Syms(names[1..])
  }

  /** The comma-separated list a value stands for: `Array(value).join(",").split(",")`
      with each entry stripped. */
  function ListEntries(v: Value): seq<string> {
    StrippedFields(JoinAll(ToArray(v), ","))
  }

  // ---------------------------------------------------------------------------
  // normalize_value

  /** How `normalize_value` treats a key. */
  datatype KeyKind = AttributeList | Symbol | NameList | Flag | Text | Title | Verbatim

  function KindOf(key: string): (k: KeyKind)
    ensures k == AttributeList <==> key == "attributes"
    ensures k == Symbol <==> key == "filetype" || key == "notation"
    ensures k == NameList <==> key == "only" || key == "exclude"
    ensures k == Flag <==> key in ["disconnected", "indirect", "inheritance", "markup", "polymorphism", "warn", "cluster"]
    ensures k == Text <==> key == "filename" || key == "orientation"
    ensures k == Title <==> key == "title"
  {
    if key == "attributes" then AttributeList
    else if key == "filetype" || key == "notation" then Symbol
    else if key == "only" || key == "exclude" then NameList
    else if key in ["disconnected", "indirect", "inheritance", "markup", "polymorphism", "warn", "cluster"] then Flag
    else if key == "filename" || key == "orientation" then Text
    else if key == "title" then Title
    else Verbatim
  }

  /** `normalize_value(key, value)`; a value whose conversion Ruby cannot perform (`to_sym`
      on nil, say) is a failure. */
  function NormalizeValue(key: string, v: Value): (r: Result<Value>)
    ensures r.Failure? ==> KindOf(key) == Symbol && !v.Str? && !v.Sym?
    ensures KindOf(key) == AttributeList ==> r == Success(if v == Bool(false) then v else List(Syms(ListEntries(v))))
    ensures KindOf(key) == NameList ==> r == Success(List(Strs(ListEntries(v))))
    ensures KindOf(key) == Flag ==> r == Success(Bool(Truthy(v)))
    ensures KindOf(key) == Symbol ==> (r.Success? <==> v.Str? || v.Sym?) && (r.Success? ==> r.value.Sym?)
    ensures KindOf(key) == Symbol && v.Str? ==> r == Success(Sym(v.s))
    ensures KindOf(key) == Symbol && v.Sym? ==> r == Success(v)
    ensures KindOf(key) == Text ==> r.Success? && (r.value == Nil <==> v == Nil) && (v != Nil ==> r.value.Str?)
    ensures KindOf(key) == Text && v.Str? ==> r == Success(v)
    ensures KindOf(key) == Text && v.Sym? ==> r == Success(Str(v.name))
    ensures KindOf(key) == Text && v.Int? ==> r == Success(Str(Strings.IntToString(v.i)))
    ensures KindOf(key) == Text && v.Bool? ==> r == Success(Str(if v.b then "true" else "false"))
    ensures KindOf(key) == Title ==> r.Success? && (v.Str? ==> r.value == v) && (!v.Str? ==> r.value == Bool(Truthy(v)))
    ensures KindOf(key) == Verbatim ==> r == Success(v)
  {
    match KindOf(key)
    case AttributeList => Success(if v == Bool(false) then v else List(Syms(ListEntries(v))))
    case Symbol => ToSym(v)
    case NameList => Success(List(Strs(ListEntries(v))))
    case Flag => Success(Bool(Truthy(v)))
    case Text => Success(if v == Nil then Nil else Str(ToS(v)))
    case Title => Success(if v.Str? then v else Bool(Truthy(v)))
    case Verbatim => Success(v)
  }

  /** Names without commas or surrounding blanks survive a trip through the comma-joined
      form: `"content,foreign_keys"` and `["content", "foreign_keys"]` both give
      `[:content, :foreign_keys]`. */
  lemma AttributesFromJoinedNames(names: seq<string>)
    requires PlainNames(names)
    ensures NormalizeValue("attributes", Str(Strings.Join(names, ","))) == Success(List(Syms(names)))
    ensures NormalizeValue("attributes", List(Strs(names))) == Success(List(Syms(names)))
    ensures NormalizeValue("only", Str(Strings.Join(names, ","))) == Success(List(Strs(names)))
  {
    ListEntriesJoined(names);
    ListEntriesList(names);
    NormalizeList("attributes", Str(Strings.Join(names, ",")));
    NormalizeList("attributes", List(Strs(names)));
    NormalizeList("only", Str(Strings.Join(names, ",")));
  }

  /** Entries that `normalize_value` keeps as they are: no commas, no blanks at either end,
      and a non-empty last one (Ruby's `split` drops trailing empty fields). */
  predicate PlainNames(names: seq<string>) {
    && (forall i | 0 <= i < |names| :: ',' !in names[i] && Plain(names[i]))
    && (|names| == 0 || names[|names| - 1] != "")
  }

  lemma NormalizeList(key: string, v: Value)
    requires key == "attributes" || key == "only"
    requires v.Str? || v.List?
    ensures key == "attributes" ==> NormalizeValue(key, v) == Success(List(Syms(ListEntries(v))))
    ensures key == "only" ==> NormalizeValue(key, v) == Success(List(Strs(ListEntries(v))))
  {
  }

  lemma FieldsOfJoined(names: seq<string>)
    requires PlainNames(names)
    ensures StrippedFields(Strings.Join(names, ",")) == names
  {
    Strings.SplitJoin(names, ',');
    StripPlain(names);
  }

  lemma ListEntriesJoined(names: seq<string>)
    requires PlainNames(names)
    ensures ListEntries(Str(Strings.Join(names, ","))) == names
  {
    var x := Strings.Join(names, ",");
    assert JoinAll([Str(x)], ",") == x;
    FieldsOfJoined(names);
  }

  lemma ListEntriesList(names: seq<string>)
    requires PlainNames(names)
    ensures ListEntries(List(Strs(names))) == names
  {
    JoinStrs(names);
    FieldsOfJoined(names);
  }

  /** No blank at either end. */
  predicate Plain(s: string) {
    |s| == 0 || (!Strings.IsSpace(s[0]) && !Strings.IsSpace(s[|s| - 1]))
  }

  lemma StripPlain(names: seq<string>)
    requires forall i | 0 <= i < |names| :: Plain(names[i])
    ensures StripAll(names) == names
  {
  }

  lemma {:induction false} JoinStrs(names: seq<string>)
    ensures JoinAll(Strs(names), ",") == Strings.Join(names, ",")
  {
    if |names| > 1 {
      JoinStrs(names[1..]);
      assert Strs(names)[1..] == Strs(names[1..]);
    }
  }

  /** Normalising twice changes nothing for the boolean, title, file name, file type and
      pass-through keys. */
  lemma NormalizeIdempotent(key: string, v: Value)
    requires key !in {"attributes", "only", "exclude"}
    requires NormalizeValue(key, v).Success?
    ensures NormalizeValue(key, NormalizeValue(key, v).value) == NormalizeValue(key, v)
  {
  }

  // ---------------------------------------------------------------------------
  // load

  /** A configuration file: its key/value pairs in file order, or None when the file does
      not exist. */
  type ConfigFile = Option<seq<(string, Value)>>

  /** `load_file`: each entry of the file normalised and stored, later entries replacing
      earlier ones; a missing file leaves the options as they are. */
  function LoadFile(o: Options, file: ConfigFile): (r: Result<Options>)
    ensures file.None? ==> r == Success(o)
  {
    match file
    case None => Success(o)
    case Some(entries) => LoadEntries(o, entries)
  }

  function LoadEntries(o: Options, entries: seq<(string, Value)>): Result<Options>
    decreases |entries|
  {
    if |entries| == 0 then Success(o)
    else
      var k := entries[0].0;
      var n := NormalizeValue(k, entries[0].1);
      if n.Failure? then Failure(n.error) else LoadEntries(o[k := n.value], entries[1..])
  }

  /** The value the last entry with that key gives, if any. */
  function LastEntry(entries: seq<(string, Value)>, key: string): (r: Option<Value>)
    ensures r.Some? ==> exists i | 0 <= i < |entries| :: entries[i] == (key, r.value)
    ensures r.None? <==> forall i | 0 <= i < |entries| :: entries[i].0 != key
  {
    if |entries| == 0 then None
    else if entries[|entries| - 1].0 == key then Some(entries[|entries| - 1].1)
    else
      var r := LastEntry(entries[..|entries| - 1], key);
      assert forall i | 0 <= i < |entries| - 1 :: entries[..|entries| - 1][i] == entries[i];
      r
  }

  /** Loading entries gives each key the normalised value of its last entry and leaves the
      other keys alone. */
  lemma {:induction false} LoadEntriesValue(o: Options, entries: seq<(string, Value)>, key: string)
    requires LoadEntries(o, entries).Success?
    ensures var r := LoadEntries(o, entries).value;
            && (LastEntry(entries, key).None? ==> Get(r, key) == Get(o, key) && (key in r <==> key in o))
            && (LastEntry(entries, key).Some? ==> key in r && NormalizeValue(key, LastEntry(entries, key).value) == Success(r[key]))
    decreases |entries|
  {
    if |entries| > 0 {
      var k := entries[0].0;
      var nv := NormalizeValue(k, entries[0].1).value;
      var rest := entries[1..];
      LoadEntriesValue(o[k := nv], rest, key);
      LastEntryCons(entries, key);
    }
  }

  lemma LastEntryCons(entries: seq<(string, Value)>, key: string)
    requires |entries| > 0
    ensures LastEntry(entries, key) ==
              if LastEntry(entries[1..], key).Some? then LastEntry(entries[1..], key)
              else if entries[0].0 == key then Some(entries[0].1) else None
    decreases |entries|
  {
    if |entries| > 1 && entries[|entries| - 1].0 != key {
      var p := entries[..|entries| - 1];
      LastEntryCons(p, key);
      assert p[1..] == entries[1..][..|entries[1..]| - 1];
    }
  }

  /** `Config.load`: the user-wide file, then the current-directory file. */
  function Load(userWide: ConfigFile, current: ConfigFile): Result<Options> {
    match LoadFile(map[], userWide)
    case Failure(e) => Failure(e)
    case Success(o) => LoadFile(o, current)
  }

  /** A key set in the current-directory file wins; otherwise the user-wide file's value
      stands; a key neither sets is absent. */
  lemma LoadOverride(userWide: ConfigFile, current: ConfigFile, key: string)
    requires Load(userWide, current).Success?
    ensures var r := Load(userWide, current).value;
            && (current.Some? && LastEntry(current.value, key).Some? ==>
                  key in r && NormalizeValue(key, LastEntry(current.value, key).value) == Success(r[key]))
            && ((current.None? || LastEntry(current.value, key).None?) && userWide.Some? && LastEntry(userWide.value, key).Some? ==>
                  key in r && NormalizeValue(key, LastEntry(userWide.value, key).value) == Success(r[key]))
            && ((current.None? || LastEntry(current.value, key).None?) && (userWide.None? || LastEntry(userWide.value, key).None?) ==>
                  key !in r)
  {
    var o := LoadFile(map[], userWide).value;
    if userWide.Some? {
      LoadEntriesValue(map[], userWide.value, key);
    }
    if current.Some? {
      LoadEntriesValue(o, current.value, key);
    }
  }

  // ---------------------------------------------------------------------------
  // use_os_x_fonts?

  /** The numbers of a dotted version string, each read with `to_i`. */
  function VersionNumbers(s: string): (r: seq<int>)
    ensures |r| == |Strings.Split(s, ".")|
    ensures forall i | 0 <= i < |r| :: r[i] == Strings.ToI(Strings.Split(s, ".")[i])
  {
    Seqs.Map(Strings.Split(s, "."), Strings.ToI)
  }

  /** The version test on the parsed numbers; comparing a missing number raises. */
  function RecentEnough(v: seq<int>): (r: Option<bool>)
    ensures |v| == 0 ==> r.None?
    ensures |v| > 0 && v[0] >= 13 ==> r == Some(true)
    ensures |v| > 0 && v[0] != 12 && v[0] < 13 ==> r == Some(false)
    ensures |v| == 1 && v[0] == 12 ==> r.None?
    ensures |v| > 1 && v[0] == 12 ==> r == Some(v[1] >= 5)
  {
    if |v| == 0 then None
    else if v[0] >= 13 then Some(true)
    else if v[0] != 12 then Some(false)
    else if |v| < 2 then None
    else Some(v[1] >= 5)
  }

  /** `use_os_x_fonts?` for a given `host_os`; None where the source raises (no version
      number after "darwin", or a bare major version 12). */
  function UseOsXFonts(host: string): (r: Option<bool>)
    ensures host == "darwin" ==> r == Some(true)
    ensures !Strings.Contains(host, "darwin") ==> r == Some(false)
  {
    if host == "darwin" then Some(true)
    else if Strings.Contains(host, "darwin") then
      var parts := Strings.Split(host, "darwin");
      if |parts| == 0 then None
      else RecentEnough(VersionNumbers(parts[|parts| - 1]))
    else Some(false)
  }

  /** A version written as "major.minor" reads back as those two numbers, so the host test
      is "at least 13, or 12 with minor at least 5". */
  lemma VersionRoundTrip(major: nat, minor: nat)
    ensures VersionNumbers(Strings.IntToString(major) + "." + Strings.IntToString(minor)) == [major, minor]
    ensures RecentEnough(VersionNumbers(Strings.IntToString(major) + "." + Strings.IntToString(minor)))
            == Some(major >= 13 || (major == 12 && minor >= 5))
  {
    var a := Strings.IntToString(major);
    var b := Strings.IntToString(minor);
    NoDotInNumber(major);
    NoDotInNumber(minor);
    SplitAtDot(a, b);
    TwoNumbers(a + "." + b, a, b);
    Strings.ToIIntToString(major);
    Strings.ToIIntToString(minor);
  }

  lemma TwoNumbers(s: string, a: string, b: string)
    requires Strings.Split(s, ".") == [a, b]
    ensures VersionNumbers(s) == [Strings.ToI(a), Strings.ToI(b)]
  {
    var r := VersionNumbers(s);
    assert r[0] == Strings.ToI(a) && r[1] == Strings.ToI(b);
  }

  lemma SplitAtDot(a: string, b: string)
    requires '.' !in a && '.' !in b && b != ""
    ensures Strings.Split(a + "." + b, ".") == [a, b]
  {
    assert Strings.Join([b], ".") == b;
    assert Strings.Join([a, b], ".") == a + "." + b;
    Strings.SplitJoin([a, b], '.');
  }

  lemma NoDotInNumber(n: nat)
    ensures '.' !in Strings.IntToString(n) && Strings.IntToString(n) != ""
  {
    var d := Strings.NatToString(n);
    forall i | 0 <= i < |d| ensures d[i] != '.' {
      assert Strings.IsDigit(d[i]);
    }
  }
}
