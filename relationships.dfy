/**
 * The declarations an element makes in its `init`: the children it has, the
 * parent it belongs to, its auto-increment fields and its ordering fields,
 * with the defaults `has` and `belongsTo` fill in for the options left unset.
 */
module Relationships {
  import opened Values

  datatype RelType = Single | Multiple

  /** The bridge table of a many-to-many relationship. */
  datatype AssocTable = AssocTable(table: string, parent: string, field: string, where: Row)

  /** The options passed to `has`; None stands for an option left out of the array. */
  datatype HasOptions = HasOptions(
    relType: Option<RelType>,
    element: Option<string>,
    table: Option<string>,
    field: Option<string>,
    where: Option<Row>,
    assoc: Option<AssocTable>,
    parentField: Option<string>,
    save: Option<bool>,
    saveConstraints: Option<seq<string>>,
    duplicable: Option<bool>)

  /** A relationship as stored in `children_setup`, every option resolved. */
  datatype Relation = Relation(
    relType: RelType,
    element: string,
    table: string,
    field: string,
    where: Row,
    assoc: Option<AssocTable>,
    parentField: string,
    save: bool,
    saveConstraints: seq<string>,
    duplicable: bool)

  /** The class every element extends; children declared with it have no table of their own. */
  const GenericElement: string := "\\Model\\Element"

  function OptionOr<T>(o: Option<T>, d: T): T
  {
    match o
    case None => d
    case Some(v) => v
  }

  /**
   * `has(name, options)` on an element of class `className`; `tableOf` gives
   * the static table of an element class.
   */
  function Has(name: string, opts: HasOptions, className: string, tableOf: string -> string): (r: Relation)
    ensures r.relType == OptionOr(opts.relType, Multiple) && r.element == OptionOr(opts.element, GenericElement)
    ensures opts.field.Some? ==> r.field == opts.field.value
    ensures opts.field.None? && r.relType == Single ==> r.field == Lower(name)
    ensures opts.field.None? && r.relType == Multiple ==> r.field == SnakeCase(className)
    ensures opts.table.Some? ==> r.table == opts.table.value
    ensures opts.table.None? && r.element != GenericElement ==> r.table == tableOf(r.element)
    ensures opts.table.None? && r.element == GenericElement ==> r.table == name
    ensures r.parentField == OptionOr(opts.parentField, "id") && r.assoc == opts.assoc
    ensures r.where == OptionOr(opts.where, map[]) && r.save == OptionOr(opts.save, false)
    ensures r.saveConstraints == OptionOr(opts.saveConstraints, []) && r.duplicable == OptionOr(opts.duplicable, true)
  {
    var relType := OptionOr(opts.relType, Multiple);
    var element := OptionOr(opts.element, GenericElement);
    var field := match opts.field
      case Some(f) => f
      case None => (match relType case Single => Lower(name) case Multiple => SnakeCase(className));
    var table := match opts.table
      case Some(t) => t
      case None => if element != GenericElement then tableOf(element) else name;
    Relation(relType, element, table, field, OptionOr(opts.where, map[]), opts.assoc,
             OptionOr(opts.parentField, "id"), OptionOr(opts.save, false),
             OptionOr(opts.saveConstraints, []), OptionOr(opts.duplicable, true))
  }

  /** The options that spell a resolved relationship out in full. */
  function OptionsOf(r: Relation): HasOptions
  {
    HasOptions(Some(r.relType), Some(r.element), Some(r.table), Some(r.field), Some(r.where), r.assoc,
               Some(r.parentField), Some(r.save), Some(r.saveConstraints), Some(r.duplicable))
  }

  /** Declaring a resolved relationship again with all its options gives it back unchanged. */
  lemma HasResolvedIsFixpoint(name: string, r: Relation, className: string, tableOf: string -> string)
    ensures Has(name, OptionsOf(r), className, tableOf) == r
  {
  }

  /** A defaulted link field never contains an upper-case letter. */
  lemma DefaultFieldIsLower(name: string, opts: HasOptions, className: string, tableOf: string -> string)
    requires opts.field.None?
    ensures var f := Has(name, opts, className, tableOf).field;
            forall i :: 0 <= i < |f| ==> !IsUpper(f[i])
  {
    LowerHasNoUpper(name);
    SnakeCaseIsLower(className);
  }

  /** `init_parent` as `belongsTo` stores it. */
  datatype ParentSpec = ParentSpec(element: string, field: string, children: Option<string>)

  /** `belongsTo(el, options)`: the link field defaults to the snake-cased parent class. */
  function BelongsTo(el: string, field: Option<string>, children: Option<string>): (p: ParentSpec)
    ensures p.element == el && p.children == children
    ensures p.field == OptionOr(field, SnakeCase(el))
  {
    ParentSpec(el, OptionOr(field, SnakeCase(el)), children)
  }

  /**
   * A has-many declared on class C without a field and a `belongsTo(C)` without
   * a field agree on the link column.
   */
  lemma MultipleMatchesBelongsTo(name: string, opts: HasOptions, className: string, tableOf: string -> string)
    requires opts.field.None? && opts.relType != Some(Single)
    ensures Has(name, opts, className, tableOf).field == BelongsTo(className, None, None).field
  {
  }

  /** What an element's `init` declared. */
  datatype Shape = Shape(
    children: Dict<Relation>,
    parent: Option<ParentSpec>,
    autoIncrement: Dict<seq<string>>,
    orderBy: Dict<Option<string>>)

  const EmptyShape: Shape := Shape([], None, [], [])

  /** One call made in `init`. */
  datatype Decl =
    | HasDecl(name: string, opts: HasOptions)
    | BelongsToDecl(el: string, linkField: Option<string>, childrenKey: Option<string>)
    | AutoIncrementDecl(field: string, dependsOn: seq<string>)
    | OrderByDecl(field: string, dependingOn: Option<string>)

  /**
   * The `depending_on` list `save` reads off an ordering field's options: a
   * falsy name (left out, "" or "0") means no partition.
   */
  function DepList(d: Option<string>): (l: seq<string>)
    ensures |l| <= 1
    ensures l == [] <==> d.None? || !Named(d.value)
  {
    if d.Some? && Named(d.value) then [d.value] else []
  }

  function Declare(s: Shape, d: Decl, className: string, tableOf: string -> string): Shape
  {
    match d
    case HasDecl(name, opts) => s.(children := Put(s.children, name, Has(name, opts, className, tableOf)))
    case BelongsToDecl(el, field, children) => s.(parent := Some(BelongsTo(el, field, children)))
    case AutoIncrementDecl(field, deps) => s.(autoIncrement := Put(s.autoIncrement, field, deps))
    case OrderByDecl(field, dep) =>
      s.(orderBy := Put(s.orderBy, field, dep), autoIncrement := Put(s.autoIncrement, field, DepList(dep)))
  }

  /** The shape `init` leaves behind, declarations applied in order. */
  function Init(decls: seq<Decl>, className: string, tableOf: string -> string): Shape
    decreases |decls|
  {
    if decls == [] then EmptyShape
    else Declare(Init(decls[..|decls| - 1], className, tableOf), decls[|decls| - 1], className, tableOf)
  }

  /** The declaration tables never hold a key twice. */
  predicate WellFormed(s: Shape)
  {
    UniqueKeyed(s.children) && UniqueKeyed(s.autoIncrement) && UniqueKeyed(s.orderBy)
  }

  /** A shape whose declaration tables never hold a key twice. */
  type WellFormedShape = s: Shape | WellFormed(s) witness EmptyShape

  /**
   * Every shape `init` builds is well formed, and the last declaration of a
   * name wins: its relationship, ordering or auto-increment entry is the one read back.
   */
  lemma {:induction false} InitWellFormed(decls: seq<Decl>, className: string, tableOf: string -> string)
    ensures WellFormed(Init(decls, className, tableOf))
    ensures |decls| > 0 ==>
      var s := Init(decls, className, tableOf);
      match decls[|decls| - 1]
      case HasDecl(name, opts) => Lookup(s.children, name) == Some(Has(name, opts, className, tableOf))
      case BelongsToDecl(el, field, children) => s.parent == Some(BelongsTo(el, field, children))
      case AutoIncrementDecl(field, deps) => Lookup(s.autoIncrement, field) == Some(deps)
      case OrderByDecl(field, dep) =>
        Lookup(s.orderBy, field) == Some(dep) && Lookup(s.autoIncrement, field) == Some(DepList(dep))
    decreases |decls|
  {
    if decls != [] {
      var prev := Init(decls[..|decls| - 1], className, tableOf);
      InitWellFormed(decls[..|decls| - 1], className, tableOf);
      match decls[|decls| - 1]
      case HasDecl(name, opts) =>
        PutLookup(prev.children, name, Has(name, opts, className, tableOf), name);
      case BelongsToDecl(_, _, _) =>
      case AutoIncrementDecl(field, deps) =>
        PutLookup(prev.autoIncrement, field, deps, field);
      case OrderByDecl(field, dep) =>
        PutLookup(prev.orderBy, field, dep, field);
        PutLookup(prev.autoIncrement, field, DepList(dep), field);
    }
  }
}
