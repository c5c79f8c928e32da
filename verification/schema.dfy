/** What the engine reads from Active Record reflection, as plain records: models with their
    columns and validators, and association reflections. Everything here is given input;
    nothing in the model computes it. */
module Schema {
  import opened Wrappers
  import Seqs

  datatype ValidatorKind = Presence | Length | Uniqueness | OtherKind(kind: string)

  /** A validator, the attributes it is declared on, and (for a length validator) its
      `:minimum` and `:maximum` options. */
  datatype Validator = Validator(kind: ValidatorKind, attributes: seq<string>, minimum: Option<int>, maximum: Option<int>)

  /** `model.validators_on(name)`. */
  function ValidatorsOn(vs: seq<Validator>, name: string): (r: seq<Validator>)
    ensures forall v :: v in r <==> v in vs && name in v.attributes
  {
    Seqs.Filter(vs, (v: Validator) => name in v.attributes)
  }

  /** A column's `limit`, `precision` or `scale`: nil, an integer, or some other object (a
      Hash, a Range) that has no `to_i`. */
  datatype Meta = Nil | Int(i: int) | Opaque(description: string)

  /** A database column. `kind` is `column.type` (nil for types Rails does not know), and
      `sqlType` the raw SQL type. */
  datatype Column = Column(name: string, kind: Option<string>, sqlType: string, nullable: bool, limit: Meta, precision: Meta, scale: Meta)

  /** One entry of `connection.native_database_types`. */
  datatype NativeType = NativeType(limit: Meta, precision: Meta, scale: Meta)

  /** A model class. `baseClassName` is `base_class.name`; `nativeTypes` is its connection's
      `native_database_types`, keyed by column type. */
  datatype Model = Model(
    name: string,
    abstractClass: bool,
    tableExists: bool,
    tableName: string,
    descendsFromActiveRecord: bool,
    baseClassName: string,
    primaryKey: string,
    inheritanceColumn: string,
    columns: seq<Column>,
    validators: seq<Validator>,
    nativeTypes: map<string, NativeType>)

  /** `model.columns_hash[name]`: the last column of that name. */
  function ColumnNamed(cols: seq<Column>, name: string): (r: Option<Column>)
    ensures r.Some? <==> exists i | 0 <= i < |cols| :: cols[i].name == name
    ensures r.Some? ==> r.value in cols && r.value.name == name
  {
    if |cols| == 0 then None
    else if cols[|cols| - 1].name == name then Some(cols[|cols| - 1])
    else
      var r := ColumnNamed(cols[..|cols| - 1], name);
      assert forall i | 0 <= i < |cols| - 1 :: cols[..|cols| - 1][i] == cols[i];
      r
  }

  datatype Macro = BelongsTo | HasOne | HasMany | HasAndBelongsToMany

  /** An association reflection.
      - `owner` is `active_record`, the model that declares it;
      - `asName` is the `:as` option, already passed through `classify`;
      - `klass` is the name of `klass`, or the message of the NameError raised when the
        associated class cannot be found;
      - `through` is the `:through` option (a Symbol in the source);
      - `joinTable` is the join table of a has_and_belongs_to_many association;
      - `validityError` is the message `check_validity!` raises, if it raises. */
  datatype Association = Association(
    name: string,
    macro: Macro,
    owner: Model,
    asName: Option<string>,
    polymorphic: bool,
    className: string,
    klass: Result<string>,
    through: Option<string>,
    foreignKey: string,
    joinTable: string,
    validityError: Option<string>)

  predicate IsBelongsTo(a: Association) {
    a.macro == BelongsTo
  }

  predicate IsHabtm(a: Association) {
    a.macro == HasAndBelongsToMany
  }

  /** `collection?`: has_many and has_and_belongs_to_many. */
  predicate IsCollection(a: Association) {
    a.macro == HasMany || a.macro == HasAndBelongsToMany
  }

  /** `through_reflection` is present exactly for `:through` associations. */
  predicate IsThrough(a: Association) {
    a.through.Some?
  }

  /** A model together with `reflect_on_all_associations`. */
  datatype Declared = Declared(model: Model, associations: seq<Association>)

  /** `models.collect(&:reflect_on_all_associations).flatten`. */
  function AllAssociations(ds: seq<Declared>): (r: seq<Association>)
    ensures forall a :: a in r <==> exists i | 0 <= i < |ds| :: a in ds[i].associations
  {
    Seqs.Flatten(Seqs.Map(ds, (d: Declared) => d.associations))
  }
}
