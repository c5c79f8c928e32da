# rails-erd domain inference, in Dafny

This project models the core of rails-erd, which draws entity-relationship diagrams of a
Rails application. The model starts from the application's models and their declared
associations. It covers:

- the **domain**: the valid models, the valid associations, the warnings, and the name
  lookups;
- the **entities**, including the abstract ones synthesised from polymorphic `:as`
  interfaces;
- the **relationships**. Associations are grouped by a direction-independent identity.
  Each group is split into a forward and a reverse side. The model picks the source and
  the destination, derives the cardinality from validators and NOT NULL foreign keys, and
  derives the flags indirect, mutual, recursive and strength;
- the **cardinality** value type: ranges with the unbounded N, classes, names, inverse and
  ordering;
- the **specializations**: inheritance and polymorphic edges;
- the **attributes**: column classification, limit, scale and type descriptions;
- the pure logic that consumes the domain:
  - the diagram's filters and the bounded neighbour walk behind `only_recursion_depth`;
  - the Mermaid text backend: lines, arrows, deduplicated save;
  - the Graphviz notation styles, title, file name and rank direction;
  - configuration normalisation, the order in which config files override each other, and
    the macOS font check.

ActiveRecord reflection is input data, not behaviour. The models, columns, validators,
associations, `table_exists?`, `descends_from_active_record?`, the classified `:as`
names and the native database types are plain records (module `Schema`). The options
hash is a map from option name to a small Ruby value type (module `Options`).

Modules, one per file:

- `Wrappers`, `Strings`, `Seqs`: Option/Result, Ruby string helpers, sequence helpers.
  Order kept by `select`/`reject` is stated with `Seqs.Positions(s, p)` (the positions of `s`
  that pass, ascending) and `Seqs.Picks(r, s, ks)` (`r` is `s` read at those positions).
- `Schema`, `Options`: the input records.
- `Cardinality`: `domain/relationship/cardinality.rb`.
- `Entities`: `domain/entity.rb`.
- `Relationships`: `domain/relationship.rb`.
- `Specializations`: `domain/specialization.rb`.
- `Attributes`: `domain/attribute.rb`.
- `Domain`: `domain.rb`.
- `Config`: `config.rb`.
- `Diagram`: `diagram.rb`.
- `Mermaid`: `diagram/mermaid.rb`.
- `Graphviz`: `diagram/graphviz.rb`.

`Diagram.Parts` is the domain's memoised entities, relationships and specializations, as
the diagram reads them. `Diagram.Resolved` states that every relationship end and every
specialization end names an entity; the source dereferences those ends without a check.

### Ruby's character classes

- `blank?` (ActiveSupport) matches `[[:space:]]`, which on a Unicode string is the
  White_Space set: U+0009-U+000D, space, U+0085, U+00A0, U+1680, U+2000-U+200A, U+2028,
  U+2029, U+202F, U+205F and U+3000, but not NUL. `Diagram.Present` uses that set
  (`Strings.IsBlankChar`).
- `String#strip` removes NUL as well as ASCII whitespace (`Strings.IsSpace`).
- `String#to_i` skips only C's `isspace` set (`Strings.IsCSpace`, no NUL), then reads an
  optional sign, an optional `0d` prefix, and digits in which a single underscore may
  separate two digits (`Strings.Numeral`).

### Where the code and its documentation or tests disagree (the model follows the code)

- Relationships are kept in the order their identity groups first appear and are not
  sorted. `Relationship#<=>` exists but `from_associations` never sorts.
- A length validator's `:minimum` replaces the presence/NOT NULL floor outright, so a
  `minimum: 0` on a required association gives minimum 0.
- The defaults in `lib/rails_erd.rb` are stale: the tests call `RailsERD.default_options`,
  which that file does not define. Defaults are therefore a parameter of `Domain.New`.
- `test/unit/mermaid_test.rb:171-195` expects the edge "`Defensible` --> `Cannon`" with
  polymorphism off. The code draws an edge only when both class lines are already in the
  graph (`node_exists?`), and no class line for `Defensible` is emitted. So the code
  draws neither that edge nor its children's. `Mermaid.GraphSections` states the code's
  behaviour.
- `Graphviz#horizontal?` compares the orientation with the symbol `:horizontal`. The
  configuration file turns `orientation` into a string with `to_s` (config.rb:74), so
  `horizontal` from a config file, as a string or as a symbol, gives the vertical
  (top-to-bottom) layout. `Graphviz.ConfiguredOrientation` states this.
  `test/unit/config_test.rb:23,45,77` expect `orientation: :horizontal` after loading,
  which `to_s` cannot produce; the model follows the code.
- `Relationship#to_one?` is documented as true for one-to-one relationships only. The
  code tests the destination class alone, so many-to-one relationships are to-one as
  well; `Relationships.ToOne` states the code. Likewise `many_to?` is documented as
  many-to-many only and holds for many-to-one too.

## Model

| member | source | states |
|---|---|---|
| Options.Merge | lib/rails_erd/domain.rb:45-47 | The merged options keep every key of both hashes; the given options win, and a default survives only where the given options lack the key |
| Domain.New | lib/rails_erd/domain.rb:45-47 | A domain keeps its models as given; every option reads as the given value when present, else as the default |
| Domain.Models | lib/rails_erd/domain.rb:116-118 | A model is kept exactly when it is abstract or its table exists, and its name does not start with "HABTM_"; the kept models are exactly the source models at the kept positions, in declaration order |
| Seqs.FilterPicks | lib/rails_erd/domain.rb:117 | `select` gives exactly the input read at the ascending positions whose element passes: nothing dropped, nothing reordered |
| Seqs.FilterOrder | lib/rails_erd/domain.rb:117 | Two passing elements appear in `select`'s result in their input order |
| Seqs.FilterSortedBy | lib/rails_erd/domain.rb:117 | `select` on a sorted sequence gives a sorted sequence |
| Seqs.FilterFilter | lib/rails_erd/domain.rb:117 | `select` followed by `reject` is one `select` by both tests |
| Domain.AssociationError | lib/rails_erd/domain.rb:130-143 | An association is rejected exactly when its validity check fails, its class cannot be resolved, or its target (class name for polymorphic, klass otherwise) names no entity |
| Domain.AssociationsOf | lib/rails_erd/domain.rb:120-122 | The domain's associations are exactly those declared by the valid models that pass the validity check, in declaration order; a rejected one leaves the rest untouched |
| Domain.AssociationsResolvable | lib/rails_erd/domain.rb:130-143 | Every kept association has a resolvable target that names an entity of the domain |
| Domain.ModelMessages | lib/rails_erd/domain.rb:124-128 | One "Ignoring invalid model" message per model that is neither abstract nor backed by a table |
| Domain.ModelMessagesInOrder | lib/rails_erd/domain.rb:124-128 | The model messages are exactly the messages of the invalid models, one per model, in the order the models are checked |
| Domain.AssociationMessages | lib/rails_erd/domain.rb:141-147 | One "Ignoring invalid association" message per rejected association, carrying its error |
| Domain.AssociationMessagesInOrder | lib/rails_erd/domain.rb:130-143 | The association messages are exactly the messages of the rejected associations, one per association, each carrying its own error, in the order the associations are checked (see also lines 145-147) |
| Domain.Warnings | lib/rails_erd/domain.rb:84-86 | Nothing is printed unless the warn option is set; otherwise line i is "Warning: " followed by message i, the invalid-model messages first and then the rejected-association messages |
| Domain.WarningsIff | lib/rails_erd/domain.rb:124-143 | A warning is printed exactly when warn is set and some model is invalid or some association of a valid model is rejected (see also lines 84-86) |
| Domain.Touching | lib/rails_erd/domain.rb:98-114 | The items listed under a name are exactly those whose first or second end has that name |
| Domain.IndexByEndsTouching | lib/rails_erd/domain.rb:98-114 | The hash built by appending each item under both of its end names equals the filter of the items touching the name, in order |
| Domain.TouchingNone | lib/rails_erd/domain.rb:76-82 | An unknown name lists nothing (`or []`) |
| Domain.TouchingCount | lib/rails_erd/domain.rb:98-114 | An item is listed once per end that has the name, so twice when both ends do |
| Domain.RelationshipsByEntityName | lib/rails_erd/domain.rb:98-105 | The relationships of a name are exactly those with it as source or destination, in relationship order (see also lines 76-78) |
| Domain.SpecializationsByEntityName | lib/rails_erd/domain.rb:107-114 | The specializations of a name are exactly those with it as generalized or specialized end (see also lines 80-82) |
| Domain.RecursiveListedTwice | lib/rails_erd/domain.rb:98-105 | A recursive relationship appears twice in its entity's relationship list |
| Domain.UnknownNameNoRelationships | lib/rails_erd/domain.rb:76-78 | A name no relationship touches gets the empty list |
| Domain.OwnerResolves | lib/rails_erd/domain.rb:56-58 | The owner name of every association of a valid model names an entity, when models declare their own associations (see also lines 71-73) |
| Domain.RelationshipEndsResolve | lib/rails_erd/domain/relationship.rb:64-72 | Under the same condition, every relationship's source and destination are found |
| Domain.OwnersDeclareEndsResolve | lib/rails_erd/domain/relationship.rb:64-72 | Under the same condition, all relationship ends resolve |
| Domain.ConnectedIff | lib/rails_erd/domain/entity.rb:48-62 | An entity is connected exactly when some relationship has it as source or destination, and disconnected exactly when it is not connected |
| Domain.Children | lib/rails_erd/domain/entity.rb:91-93 | An entity's children are the entity lookups of the specialized ends of the specializations listed under its name, one per specialization, in order |
| Domain.EntityAttributes | lib/rails_erd/domain/entity.rb:42-44 | A generalized entity has no attributes. Any other has a permutation of its columns: in column order without options, sorted by name under `sort`, and with the primary key first under `prepend_primary` when a column has that name |
| Domain.ForeignKeysOf | lib/rails_erd/domain/attribute.rb:79-83 | The foreign key names listed are exactly those of the associations of the given relationships |
| Domain.ForeignKeyIff | lib/rails_erd/domain/attribute.rb:79-83 | An attribute is a foreign key exactly when some association of a relationship touching its model, declared on either side, has that foreign key |
| Entities.EntityLeTotalPreorder | lib/rails_erd/domain/entity.rb:99-101 | Ordering entities by name alone is a total preorder |
| Entities.Concrete | lib/rails_erd/domain/entity.rb:13-15 | One model-backed entity per model, with the model's name |
| Entities.InterfaceNames | lib/rails_erd/domain/entity.rb:17-21 | The distinct classified `:as` names of all associations, each once |
| Entities.Abstract | lib/rails_erd/domain/entity.rb:17-21 | One model-less entity per distinct interface name |
| Entities.FromModels | lib/rails_erd/domain/entity.rb:7-9 | The entities are a permutation of the concrete plus the abstract ones, sorted by name |
| Entities.ModelsHaveEntities | lib/rails_erd/domain/entity.rb:7-15 | Every model has its entity |
| Entities.InterfacesSynthesizedOnce | lib/rails_erd/domain/entity.rb:17-21 | An interface shared by several models yields exactly one entity |
| Entities.EntitiesFromModelsOnly | lib/rails_erd/domain/entity.rb:7-21 | Every entity comes from a model of the list or from an interface name |
| Entities.EntityByName | lib/rails_erd/domain.rb:90-96 | Found exactly when some entity has the name, and then it is the last entity of that name (later hash writes win) (see also lines 71-73) |
| Entities.InterfaceEntitiesGeneralized | lib/rails_erd/domain/entity.rb:70-88 | A synthesised interface entity is generalized, not specialized, and virtual |
| Entities.Generalized | lib/rails_erd/domain/entity.rb:70-72 | Generalized exactly when there is no model or the model is an abstract class |
| Entities.Specialized | lib/rails_erd/domain/entity.rb:78-80 | Specialized only with a model, and then exactly when the model does not descend from ActiveRecord::Base |
| Entities.Virtual | lib/rails_erd/domain/entity.rb:85-87 | Virtual exactly when there is no model, or the model is abstract, or it does not descend from ActiveRecord::Base (generalized or specialized) |
| Specializations.Compare | lib/rails_erd/domain/specialization.rb:53-55 | Comparison by generalized name, then specialized name; zero exactly for equal pairs |
| Specializations.SpecLeTotalPreorder | lib/rails_erd/domain/specialization.rb:53-55 | That ordering is a total preorder |
| Specializations.InheritanceFromModels | lib/rails_erd/domain/specialization.rb:22-26 | The (base class, model) pairs are exactly those of the models that do not descend from ActiveRecord::Base |
| Specializations.PolymorphicFromModels | lib/rails_erd/domain/specialization.rb:14-20 | The distinct (interface name, owning model) pairs of all `:as` associations, each once |
| Specializations.Polymorphic | lib/rails_erd/domain/specialization.rb:49-51 | Polymorphic exactly when the generalized entity has no model or an abstract-class model |
| Specializations.Inheritance | lib/rails_erd/domain/specialization.rb:45-47 | Inheritance exactly when not polymorphic: the generalized entity has a model that is not an abstract class |
| Specializations.FromModels | lib/rails_erd/domain/specialization.rb:8-10 | A permutation of the inheritance plus the polymorphic specializations, sorted by (generalized, specialized) |
| Specializations.FromModelsContents | lib/rails_erd/domain/specialization.rb:8-26 | A pair is a specialization exactly when it comes from a non-descending model or from an `:as` association; each pair occurs once in the polymorphic list |
| Cardinality.BoundCompare | lib/rails_erd/domain/relationship/cardinality.rb:8 | Bounds compare with N above every integer; zero exactly for equal bounds |
| Cardinality.ComposeRange | lib/rails_erd/domain/relationship/cardinality.rb:106-110 | A positive count k becomes k..k, an exclusive range a...b becomes a..b-1, and an inclusive range is kept; each admits the same integers as its input. A non-positive count fails (Integer has no `exclude_end?`) |
| Cardinality.New | lib/rails_erd/domain/relationship/cardinality.rb:25-28 | A cardinality exists exactly when both ranges compose, and holds the composed ranges |
| Cardinality.NewCountIsRange | lib/rails_erd/domain/relationship/cardinality.rb:106-110 | Building from counts k and j equals building from k..k and j..j |
| Cardinality.CardName | lib/rails_erd/domain/relationship/cardinality.rb:44-46 | The name is the CLASSES entry of the class pair: each of the four names exactly for its pair (see also lines 10-15) |
| Cardinality.ClassOne | lib/rails_erd/domain/relationship/cardinality.rb:95-102 | A side's class is 1 exactly when its max is 1; 5..17 and 1..2 are class N |
| Cardinality.ExactlyOneName | lib/rails_erd/domain/relationship/cardinality.rb:64-70 | Each `*_to_*?` predicate holds exactly when `name` is that name, and one of them always holds |
| Cardinality.Inverse | lib/rails_erd/domain/relationship/cardinality.rb:49-62 | Inverting swaps the optionality and the classes of the two sides |
| Cardinality.SourceOptional | lib/rails_erd/domain/relationship/cardinality.rb:49-51 | For a non-negative range that reaches 0, the source is optional exactly when it admits zero |
| Cardinality.DestinationOptional | lib/rails_erd/domain/relationship/cardinality.rb:54-56 | For a non-negative range that reaches 0, the destination is optional exactly when it admits zero |
| Cardinality.InverseInvolution | lib/rails_erd/domain/relationship/cardinality.rb:60-62 | Inverting twice gives back the cardinality |
| Cardinality.InverseName | lib/rails_erd/domain/relationship/cardinality.rb:60-70 | One-to-many inverts to many-to-one; one-to-one and many-to-many keep their names |
| Cardinality.CompareAntisymmetric | lib/rails_erd/domain/relationship/cardinality.rb:76-82 | `a <=> b` is the negation of `b <=> a` |
| Cardinality.CompareReflexive | lib/rails_erd/domain/relationship/cardinality.rb:76-82 | `a <=> a` is 0 |
| Cardinality.CompareTransitive | lib/rails_erd/domain/relationship/cardinality.rb:76-82 | The ordering is transitive |
| Cardinality.CompareTiesUnequal | lib/rails_erd/domain/relationship/cardinality.rb:72-82 | 0..1 to 1..1 and 1..1 to 0..1 compare as 0 yet are not `==` |
| Cardinality.CompareByManiness | lib/rails_erd/domain/relationship/cardinality.rb:76-82 | One-to-one sorts before one-to-many, and one-to-many before many-to-many, whatever the ranges |
| Relationships.Identifier | lib/rails_erd/domain/relationship.rb:28-36 | The join table for has_and_belongs_to_many, else the `:through` name (a symbol), else the foreign key |
| Relationships.GroupByCorrect | lib/rails_erd/domain/relationship.rb:16-26 | Grouping gives distinct keys. A group holds exactly the associations with its identity, and no group is empty. Every association's group is present |
| Relationships.GroupByIsGroups | lib/rails_erd/domain/relationship.rb:17 | The hash-insertion fold of `group_by` equals the reference: the distinct keys in first-occurrence order, each with its members filtered in order |
| Relationships.FromAssociations | lib/rails_erd/domain/relationship.rb:16-19 | One relationship per identity group, holding exactly that group's associations |
| Relationships.FromAssociationsEnds | lib/rails_erd/domain/relationship.rb:16-19 | Each relationship's source and destination are the looked-up owner and target of one input association, in one order or the other (see also lines 64-72) |
| Relationships.FromAssociationsCovers | lib/rails_erd/domain/relationship.rb:16-19 | Every input association lands in some relationship |
| Relationships.FromAssociationsSameIdentity | lib/rails_erd/domain/relationship.rb:16-26 | Two associations share a relationship exactly when their identity sets are equal |
| Relationships.FirstOwner | lib/rails_erd/domain/relationship.rb:152 | The chosen owner declares one of the associations and sorts no later than any other owner |
| Relationships.Partition | lib/rails_erd/domain/relationship.rb:148-157 | The reverse side holds exactly the group's reverse associations and the forward side the rest; together they are a permutation of the group |
| Relationships.NewRelationship | lib/rails_erd/domain/relationship.rb:64-78 | `associations` (forward then reverse) is a permutation of the group, split by the reverse test. The first of them fixes the direction: source = its owner's entity and destination = its target's, swapped when it is a belongs_to |
| Relationships.MutualIffBothSides | lib/rails_erd/domain/relationship.rb:101-103 | Mutual exactly when the group has both a reverse and a forward association |
| Relationships.Indirect | lib/rails_erd/domain/relationship.rb:94-96 | Indirect exactly when the forward side is non-empty and every forward association goes `:through` |
| Relationships.Mutual | lib/rails_erd/domain/relationship.rb:101-103 | Mutual exactly when each side has fewer associations than the whole relationship, i.e. both sides are non-empty |
| Relationships.Recursive | lib/rails_erd/domain/relationship.rb:106-108 | With both ends present, recursive exactly when source and destination are the same entity |
| Relationships.ToOne | lib/rails_erd/domain/relationship.rb:112-114 | To-one exactly when the cardinality is one-to-one or many-to-one |
| Relationships.ToMany | lib/rails_erd/domain/relationship.rb:119-121 | To-many exactly when not to-one, i.e. one-to-many or many-to-many |
| Relationships.OneTo | lib/rails_erd/domain/relationship.rb:126-128 | One-to exactly when the cardinality is one-to-one or one-to-many |
| Relationships.ManyTo | lib/rails_erd/domain/relationship.rb:132-134 | Many-to exactly when not one-to, i.e. many-to-one or many-to-many |
| Relationships.DirectionFromHasSide | lib/rails_erd/domain/relationship.rb:64-72 | Without has_and_belongs_to_many, the first non-belongs_to association gives the source (its owner) and the destination (its target) |
| Relationships.DirectionFromBelongsTo | lib/rails_erd/domain/relationship.rb:64-72 | A group of only belongs_to associations has no forward side and is swapped: source = target, destination = owner of the first |
| Relationships.HabtmSourceSortsFirst | lib/rails_erd/domain/relationship.rb:148-153 | In a group of non-polymorphic has_and_belongs_to_many associations, the owner whose name sorts first is the source and owns exactly the forward side |
| Relationships.NewRelationshipEnds | lib/rails_erd/domain/relationship.rb:64-72 | The source and destination are the looked-up owner and target of one association of the group, in one order or the other |
| Relationships.AssociationValidators | lib/rails_erd/domain/relationship.rb:188-190 | Exactly the owner's validators of that kind on the association's name |
| Relationships.AssociationMinimum | lib/rails_erd/domain/relationship.rb:175-200 | The highest length minimum when there is one; otherwise 1 exactly when there is a presence validator or a required NOT NULL belongs_to foreign key, else 0 |
| Relationships.AssociationMaximum | lib/rails_erd/domain/relationship.rb:182-186 | The lowest length maximum when there is one; otherwise N exactly for collections, else 1 |
| Relationships.SingleMaximum | lib/rails_erd/domain/relationship.rb:182-186 | A non-collection without length maximum has maximum 1 |
| Relationships.SideRange | lib/rails_erd/domain/relationship.rb:159-173 | An empty side gives 0..default; otherwise min is the largest association minimum and max the largest association maximum |
| Relationships.RelCardinality | lib/rails_erd/domain/relationship.rb:81-88 | The destination range comes from the forward side with default N; the source range comes from the reverse side with default 1, or N when a has_and_belongs_to_many is involved |
| Relationships.BelongsToAloneIsOneToMany | lib/rails_erd/domain/relationship.rb:64-88 | A lone belongs_to without length maximum gives destination 0..N and a one-to-many cardinality |
| Relationships.HabtmIsManyToMany | lib/rails_erd/domain/relationship.rb:81-88 | A group of has_and_belongs_to_many associations without length maximum is many-to-many |
| Relationships.Strength | lib/rails_erd/domain/relationship.rb:138-140 | 1 when the source is generalized, else the number of associations |
| Relationships.Compare | lib/rails_erd/domain/relationship.rb:142-144 | Zero exactly when source and destination names are equal |
| Relationships.CompareAntisymmetric | lib/rails_erd/domain/relationship.rb:142-144 | The ordering is antisymmetric |
| Attributes.ContentClassification | lib/rails_erd/domain/attribute.rb:73-102 | Content exactly when the name is not the primary key, not a foreign key, not the inheritance column and not one of the four timestamp names (see also lines 9 and 57-59) |
| Attributes.MandatoryFromValidators | lib/rails_erd/domain/attribute.rb:64-70 | Mandatory exactly when the column is NOT NULL or a presence validator covers it; unique exactly when a uniqueness validator does |
| Attributes.Native | lib/rails_erd/domain/attribute.rb:155-157 | The native type of the attribute's type, or the empty one |
| Attributes.Type | lib/rails_erd/domain/attribute.rb:51-53 | The Rails type when there is one; else the SQL type with the same length, no upper-case ASCII letter left, each character either kept or lowered by 32 |
| Attributes.Limit | lib/rails_erd/domain/attribute.rb:133-137 | The limit when it differs from the native default and converts to an integer; else the precision under the same conditions; else none |
| Attributes.DefaultLimitHidden | lib/rails_erd/domain/attribute.rb:135-136 | Native-default limit and precision give no limit |
| Attributes.OpaqueLimitSkipped | lib/rails_erd/domain/attribute.rb:135 | A limit without `to_i` (a Hash) is skipped in favour of the precision |
| Attributes.Scale | lib/rails_erd/domain/attribute.rb:140-143 | A non-default convertible scale; else 0 when a precision is set; else none |
| Attributes.LimitDescription | lib/rails_erd/domain/attribute.rb:148-151 | A description exists exactly when a limit does |
| Attributes.LimitDescriptionRoundTrip | lib/rails_erd/domain/attribute.rb:148-151 | Parsing "(l)" or "(l,s)" back gives the limit and the scale |
| Attributes.TypeDescription | lib/rails_erd/domain/attribute.rb:121-129 | Starts with the type, followed by a space and the limit description when there is one; without a limit it is the type followed by the markers for mandatory non-PK, unique non-key, PK and FK, in that order |
| Attributes.MarkersRoundTrip | lib/rails_erd/domain/attribute.rb:124-127 | The four markers are read back from the description's end in the reverse order |
| Attributes.DescriptionMarkers | lib/rails_erd/domain/attribute.rb:121-129 | Each marker of the description is present exactly when its condition holds, and what precedes the markers is the type plus, when there is one, a space and the limit description |
| Attributes.DescriptionRoundTrip | lib/rails_erd/domain/attribute.rb:121-129 | The head of a description is the type, alone when there is no limit, else followed by a space and a limit description that parses back to the limit and scale (see also lines 148-151) |
| Attributes.AttributeLeTotalPreorder | lib/rails_erd/domain/attribute.rb:104-106 | Attributes are ordered by name, a total preorder |
| Attributes.IndexOfName | lib/rails_erd/domain/attribute.rb:25 | The first index whose attribute has the name, or none |
| Attributes.PrependPrimary | lib/rails_erd/domain/attribute.rb:23-32 | A permutation. Without the key, nothing moves. Otherwise the key's attribute and the first attribute swap places and nothing else moves |
| Attributes.FromModel | lib/rails_erd/domain/attribute.rb:12-21 | A permutation of the columns. Kept in column order without options, sorted by name with `:sort` alone, and with the primary key first under `:prepend_primary` when it exists |
| Config.ToArray | lib/rails_erd/config.rb:56 | Ruby `Array()`: a list as is, nil as empty, anything else wrapped |
| Config.ToSym | lib/rails_erd/config.rb:60-61 | `to_sym` succeeds exactly on strings and symbols |
| Config.KindOf | lib/rails_erd/config.rb:48-82 | Classifies each option key into the `case` branch that handles it |
| Config.NormalizeValue | lib/rails_erd/config.rb:48-83 | `attributes`: false stays, anything else becomes the stripped comma fields as symbols. `only`/`exclude`: the stripped fields as strings. filetype/notation: `to_sym` of the value (a string becomes the symbol of the same name, a symbol stays), failing exactly for values without `to_sym`. The boolean keys become their truthiness. filename/orientation: nil stays nil, anything else becomes `to_s` of the value (a string stays, a symbol becomes the string of its name, an integer its decimal digits, a boolean "true"/"false"). title: a string stays, anything else becomes its truthiness. Other keys pass through. Nothing else fails |
| Config.AttributesFromJoinedNames | lib/rails_erd/config.rb:50-65 | A comma-joined string and an array of the same names normalise to the same symbol list; `only` gives the string list |
| Config.NormalizeIdempotent | lib/rails_erd/config.rb:48-83 | For every key but attributes/only/exclude, normalising a normalised value changes nothing |
| Config.LoadFile | lib/rails_erd/config.rb:39-46 | A missing file leaves the options unchanged |
| Config.LastEntry | lib/rails_erd/config.rb:41-44 | The value of the last entry for the key, or none exactly when no entry has it |
| Config.LoadEntriesValue | lib/rails_erd/config.rb:41-44 | After loading, a key's value is the normalised value of its last entry, and keys without entries are untouched |
| Config.LoadOverride | lib/rails_erd/config.rb:18-23 | The current directory's file wins over the user-wide file, which wins over nothing |
| Config.VersionNumbers | lib/rails_erd/config.rb:90 | One `to_i` per dot-separated field |
| Strings.ToIIntToString | lib/rails_erd/config.rb:90 | `to_i` reads back every integer that `to_s` writes |
| Strings.ToIUnderscore | lib/rails_erd/config.rb:90 | `to_i` skips a single underscore between two runs of digits |
| Strings.ToIStops | lib/rails_erd/config.rb:90 | The numeral ends at the first character that is neither a digit nor an underscore followed by a digit |
| Strings.ToIDecimalPrefix | lib/rails_erd/config.rb:90 | A leading `0d` or `0D` is skipped |
| Strings.ToINul | lib/rails_erd/config.rb:90 | A leading NUL is not whitespace to `to_i`, so the result is 0 |
| Config.RecentEnough | lib/rails_erd/config.rb:92-96 | Major 13 or above is true, 12 needs minor 5, other majors are false; a missing component is nil (where Ruby raises) |
| Config.UseOsXFonts | lib/rails_erd/config.rb:85-97 | "darwin" is true; a host without "darwin" is false |
| Config.VersionRoundTrip | lib/rails_erd/config.rb:89-94 | A "major.minor" suffix parses back to both numbers, and the check is major >= 13 or (12 and minor >= 5) |
| Diagram.FlattenValue | lib/rails_erd/diagram.rb:180-181 | `[v].flatten` leaves no nested list and keeps a scalar as one element |
| Diagram.PresentChars | lib/rails_erd/diagram.rb:127 | A string of Unicode spaces (no-break space, ideographic space, newline) is blank, so the option is not present; a NUL is not blank |
| Diagram.SymbolNames | lib/rails_erd/diagram.rb:180-181 | `map(&:to_sym)` succeeds exactly when every element is a string or symbol, keeping each name |
| Diagram.NameListOfNames | lib/rails_erd/diagram.rb:180-181 | A list of strings, a list of symbols, a single string and a single symbol give their names |
| Diagram.RelationshipsNamedAgree | lib/rails_erd/domain.rb:76-78 | The diagram's lookup on the memoised parts agrees with the domain's, and so does `connected?` |
| Diagram.Children | lib/rails_erd/domain/entity.rb:91-93 | One child per specialization listed under the name, named after its specialized end |
| Diagram.Listed | lib/rails_erd/diagram.rb:180-181 | Whether the name is (for exclude) or is not (for only) in the parsed list; a list that does not parse fails |
| Diagram.RejectedIff | lib/rails_erd/diagram.rb:178-185 | When the lists parse, the rejection test is the negation of the declarative Shown condition |
| Diagram.SelectEntities | lib/rails_erd/diagram.rb:179-185 | Succeeds exactly when every entity's test does, and then is `select` of the entities not rejected, in their order |
| Diagram.FilteredEntities | lib/rails_erd/diagram.rb:178-188 | Non-empty on success and holds exactly the entities not rejected, at their positions in the domain's order (so a sorted entity list stays sorted); when every test runs, succeeds exactly when one entity survives |
| Diagram.FilteredEntitiesShown | lib/rails_erd/diagram.rb:178-188 | Succeeds exactly when some entity is shown, failing with "No entities found; create your models first!"; keeps exactly the shown entities |
| Diagram.FilteredRelationships | lib/rails_erd/diagram.rb:190-194 | Keeps exactly the relationships that are direct or allowed by `indirect`, in the domain's order; everything when `indirect` is on |
| Diagram.FilteredSpecializations | lib/rails_erd/diagram.rb:196-201 | Keeps exactly the specializations allowed by the inheritance and polymorphism options, in the domain's order |
| Diagram.SpecializationShownIff | lib/rails_erd/diagram.rb:196-201 | An inheritance edge is kept exactly when inheritance is on, a polymorphic one exactly when polymorphism is on |
| Diagram.ChompS | lib/rails_erd/diagram.rb:207 | `chomp('s')` removes exactly one trailing "s" |
| Diagram.Holds | lib/rails_erd/diagram.rb:207 | Calling `<category>?` succeeds exactly for the attribute predicates that exist |
| Diagram.AnyCategory | lib/rails_erd/diagram.rb:207 | `none?` short-circuits. When every category exists, the result is whether one of them holds |
| Diagram.FilteredAttributes | lib/rails_erd/diagram.rb:203-209 | Empty when `attributes` is off or the entity is specialized; otherwise exactly the attributes matching a selected category, in the entity's attribute order |
| Diagram.AttributesByCategory | lib/rails_erd/diagram.rb:203-209 | With known categories, the filter succeeds and keeps exactly the attributes for which some selected category holds |
| Diagram.NeighboursOf | lib/rails_erd/diagram.rb:152-164 | Exactly the non-generalized other ends of the direct, non-recursive relationships |
| Diagram.Recurse | lib/rails_erd/diagram.rb:148-166 | Duplicate-free. Empty for nil or at the maximum level. Holds exactly the names reachable within the remaining levels |
| Diagram.ReachableEnds | lib/rails_erd/diagram.rb:148-166 | Every reached name is a non-generalized end of some relationship |
| Diagram.Reached | lib/rails_erd/diagram.rb:129-131 | Exactly the names reachable within the depth from some listed name that names an entity |
| Diagram.WidenOnly | lib/rails_erd/diagram.rb:129-132 | Duplicate-free, and holds exactly the old `only` entries plus the reachable names |
| Diagram.WidenOnlyZero | lib/rails_erd/diagram.rb:129-132 | Depth 0 adds nothing |
| Diagram.DepthOf | lib/rails_erd/diagram.rb:128 | `to_i` of an integer is itself; of a string, its leading number |
| Diagram.WidenedOptions | lib/rails_erd/diagram.rb:127-133 | Unchanged without a depth; otherwise `only` (which must be an array) is replaced by its widened list |
| Diagram.WithAttributes | lib/rails_erd/diagram.rb:135-137 | Each filtered entity is paired with its filtered attributes, in order; it fails exactly when filtering the attributes of one of the entities fails |
| Diagram.Generate | lib/rails_erd/diagram.rb:125-146 | Uses the widened options and visits the filtered entities (in order), each with exactly its filtered attributes, then the specializations and relationships; it fails exactly when widening the options, filtering the entities or filtering some entity's attributes fails |
| Diagram.EventsOrdered | lib/rails_erd/diagram.rb:135-145 | All entity callbacks come before all specialization callbacks, which come before all relationship callbacks |
| Mermaid.ArrowRoundTrip | lib/rails_erd/diagram/mermaid.rb:58-76 | Tail, body and head are read back from the arrow |
| Mermaid.RelationArrowRoundTrip | lib/rails_erd/diagram/mermaid.rb:58-76 | The arrow has "<" exactly when many_to?, ".." exactly when indirect, ">" exactly when to_many? |
| Mermaid.ArrowShapes | lib/rails_erd/diagram/mermaid.rb:58-76 | The arrows of the common cases: "--", "-->", "<-->", "..>" |
| Mermaid.EntityLines | lib/rails_erd/diagram/mermaid.rb:18-24 | The class line, then one attribute line per attribute in order |
| Mermaid.SpecializationLines | lib/rails_erd/diagram/mermaid.rb:26-30 | Exactly two lines: "\t<<polymorphic>> \`G\`" for the generalized name G, then "\t G <\|-- S" for the specialized name S; each is pinned by its prefix, its suffix and its exact length |
| Mermaid.SpecializationLinesPlain | lib/rails_erd/diagram/mermaid.rb:26-30 | Neither specialization line is a class line, so they do not change which nodes exist (see also lines 78-82) |
| Mermaid.RelationshipLines | lib/rails_erd/diagram/mermaid.rb:36-44 | The edge line comes first; then, for each child of the source in order, the edge from that child to the destination; then, for each child of the destination in order, the edge from the source to that child; all with the relationship's arrow |
| Mermaid.Graph | lib/rails_erd/diagram/mermaid.rb:11-16 | The graph starts with "classDiagram" and "\tdirection RL" |
| Mermaid.ClassLineInEntities | lib/rails_erd/diagram/mermaid.rb:18-24 | The entity section has a class line for a name exactly when that entity was visited (see also lines 78-82) |
| Mermaid.GraphSections | lib/rails_erd/diagram/mermaid.rb:11-45 | The graph is the header, the entity lines, the specialization lines, then the lines of exactly the relationships whose two ends were visited, in order |
| Mermaid.AddRelationshipsDrawn | lib/rails_erd/diagram/mermaid.rb:32-45 | Adding relationships to a graph whose class lines are fixed appends the drawn relationships' lines |
| Mermaid.Filename | lib/rails_erd/diagram/mermaid.rb:54-56 | A string file name followed by ".mmd" |
| Mermaid.SaveRoundTrip | lib/rails_erd/diagram/mermaid.rb:47-52 | For non-empty lines without newlines, splitting the saved text on newlines gives back the lines with later repeats removed, so no line appears twice |
| Graphviz.NotationOf | lib/rails_erd/diagram/graphviz.rb:90-123 | A style is found exactly for the symbols simple, uml and bachman (see also line 237) |
| Graphviz.RangeLabel | lib/rails_erd/diagram/graphviz.rb:102-108 | "min" when min equals max, else "min..max" with the asterisk for N; empty when Ruby's `min`/`max` are nil. The asterisk is the three characters U+00E2 U+02C6 U+2014 that the literal at line 106 holds (the UTF-8 bytes of U+2217 read as Windows-1252) |
| Graphviz.LabelRoundTrip | lib/rails_erd/diagram/graphviz.rb:102-108 | Every non-empty range is read back from its label |
| Graphviz.BachmanEnd | lib/rails_erd/diagram/graphviz.rb:113-122 | One of odot/dot/odotnormal/dotnormal; open exactly when the opposite side is optional, with an arrow exactly when this side is many |
| Graphviz.Style | lib/rails_erd/diagram/graphviz.rb:90-123 | Simple sets no size or labels. UML sets size 0.7 and labels the head with the destination range and the tail with the source range. Bachman sets size 0.6 |
| Graphviz.StyleArrows | lib/rails_erd/diagram/graphviz.rb:92-122 | In every notation the head has an arrow exactly when to_many?, the tail exactly when many_to?; Bachman dots are open exactly for the optional look-here side |
| Graphviz.StyleInverse | lib/rails_erd/diagram/graphviz.rb:90-123 | Every notation draws the inverse cardinality as the mirror image of the edge |
| Graphviz.RelationshipOptions | lib/rails_erd/diagram/graphviz.rb:206-214 | Fails exactly for an unknown notation; weight is the strength; dotted style and constraint=false exactly for indirect relationships (see also lines 232-239) |
| Graphviz.SimpleAgreesWithMermaid | lib/rails_erd/diagram/graphviz.rb:92-95 | The simple notation has a head exactly when the Mermaid arrow ends in ">" and a tail exactly when it starts with "<" |
| Graphviz.EntityColor | lib/rails_erd/diagram/graphviz.rb:224-228 | Grey exactly for specialized entities |
| Graphviz.Title | lib/rails_erd/diagram/graphviz.rb:181-188 | false gives nil; true gives "<name> domain model" or "Domain model"; anything else is returned as is |
| Graphviz.Label | lib/rails_erd/diagram/graphviz.rb:139 | A label exactly when the title is truthy, ending in two escaped line breaks |
| Graphviz.LabelPresent | lib/rails_erd/diagram/graphviz.rb:181-188 | No label exactly for a false or nil title option (see also line 139) |
| Graphviz.Filetype | lib/rails_erd/diagram/graphviz.rb:196-198 | Succeeds exactly for strings and symbols; "none" exactly for dot or none, else the type itself |
| Graphviz.Filename | lib/rails_erd/diagram/graphviz.rb:191-193 | For a string file name and a symbol file type: the name, a dot, and the type |
| Graphviz.FilenameMatchesFiletype | lib/rails_erd/diagram/graphviz.rb:191-198 | A dot diagram is output as "none" but saved as ".dot"; other types are both output type and extension |
| Graphviz.Rankdir | lib/rails_erd/diagram/graphviz.rb:170-178 | Left-to-right exactly when the orientation is `:horizontal`, else top-to-bottom (see also lines 54-56 and 136) |
| Graphviz.RankdirCases | lib/rails_erd/diagram/graphviz.rb:170-178 | `:horizontal` is LR; `:vertical`, nil and the string "horizontal" are TB (see also line 136) |
| Graphviz.ConfiguredOrientation | lib/rails_erd/config.rb:73-74 | A configuration file whose last orientation entry is "horizontal", string or symbol, stores the string "horizontal", and the diagram is drawn top to bottom (see also lib/rails_erd/diagram/graphviz.rb:170-178) |

## Left out

- ActiveRecord reflection, the `classify` inflector and `get_primary_key` are foreign calls. They are input records or the `Diagram.Settings` function parameter.
- Warnings are returned as a list of messages; `puts` is not modelled.
- Floating-point infinity is the `Inf` bound. Graphviz's float attribute values (arrow sizes) are their decimal text.
- The geometry check at lib/rails_erd/domain/attribute.rb:134 compares a Hash with a String and never holds, so it is not modelled.
- The ruby-graphviz calls, the ERB node template, the graph/node/edge default attribute tables, `specialization_style_options` and both `save` blocks are library calls and file I/O. So are YAML loading, `File.exist?`, `File.write` and the whitespace-to-underscore rewrite of the Mermaid file name. Only the deduplicate-and-join of the Mermaid text is modelled.
- The CLI, the Railtie, the generator, `lib/rails_erd/config_file.rb` and `lib/rails_erd/custom.rb` are framework and UI glue.
- The legacy copies `lib/rails_erd/relationship.rb`, `lib/rails_erd/entity.rb`, `lib/rails_erd/attribute.rb` and `lib/rails_erd/relationship/cardinality.rb` are not loaded by the live domain.
- `Symbol#inspect` and string escaping in inspected values are approximated by the `Config.Inspect` text.
- Seqs.Sort: Ruby's `sort` is not stable; the model sorts stably, so only the order among equal keys may differ.
- Domain.OwnersDeclareEndsResolve: it assumes each model declares only its own associations. An inherited association whose `active_record` is another model is not covered, so relationship ends are otherwise an explicit precondition (`Domain.EndsResolve`).
- Diagram.Holds: only the attribute predicates that rails-erd defines are categories. Object's own `?` methods (such as `nil?` or `frozen?`) would also answer in Ruby; here they fail as unknown.
- Diagram.WidenedOptions: a negative `only_recursion_depth` recurses without end in Ruby when an edge exists, so it is excluded by `Diagram.DepthAllowed`.
- Config.RecentEnough: a version with a missing component raises in Ruby (`nil >= 5`); the model returns none.
- Config.NormalizeIdempotent: it excludes attributes/only/exclude. Re-splitting their normalised values is not the identity in general (a trailing comma drops a field, and a blank entry stays).
- Config.UseOsXFonts: only the exact "darwin" and no-"darwin" cases are stated as contract; the version case is stated through `Config.VersionRoundTrip`.
- Diagram.Recurse: the entity comparison `relationship.source == entity` is on entity values.
- Attributes.Type: `downcase` is modelled for the ASCII letters A-Z only (`Strings.Downcase`). Ruby's full Unicode case mapping of other letters in an SQL type name is not modelled.
- Strings.ToI: only base 10 and the `0d` prefix are modelled; `to_i` is only called without a base here.
- `each_entity` in the Graphviz backend builds node labels from the ERB template, which is not modelled.
