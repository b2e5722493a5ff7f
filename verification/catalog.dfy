/**
 * The catalog of libcol (src/libcol/types/catalog.c): the table of schema
 * definitions by name, and the mapping from type names to data types.
 */
module Catalog {
  import opened Wrappers
  import ColHash

  /** The data types a column may have; TypeInvalid is the answer for an
      unknown type name. */
  datatype DataType = TypeInvalid | TypeBool | TypeChar | TypeDouble | TypeInt2 | TypeInt4 | TypeInt8 | TypeString

  /** Every type name a program may use. */
  const TypeNames: set<string> := {"bool", "char", "double", "int", "int2", "int4", "int8", "string"}

  /** The name each valid type is spelled with; TypeInt4 also answers to
      "int". */
  function CanonicalName(t: DataType): (name: string)
    requires t != TypeInvalid
    ensures name in TypeNames && name != "int"
  {
    match t
    case TypeBool => "bool"
    case TypeChar => "char"
    case TypeDouble => "double"
    case TypeInt2 => "int2"
    case TypeInt4 => "int4"
    case TypeInt8 => "int8"
    case TypeString => "string"
  }

  /** lookup_type_name: exact, case-sensitive comparison against each known
      name in turn; anything else is TypeInvalid. */
  function LookupTypeName(name: string): (t: DataType)
    ensures t == TypeInvalid <==> name !in TypeNames
    ensures t != TypeInvalid ==> name == CanonicalName(t) || (name == "int" && t == TypeInt4)
  {
    if name == "bool" then TypeBool
    else if name == "char" then TypeChar
    else if name == "double" then TypeDouble
    else if name == "int" then TypeInt4
    else if name == "int2" then TypeInt2
    else if name == "int4" then TypeInt4
    else if name == "int8" then TypeInt8
    else if name == "string" then TypeString
    else TypeInvalid
  }

  /** Looking up a type's own name gives the type back, and "int" is an
      alias of "int4". */
  lemma LookupInvertsCanonicalName(t: DataType)
    requires t != TypeInvalid
    ensures LookupTypeName(CanonicalName(t)) == t
    ensures LookupTypeName("int") == LookupTypeName("int4")
  {
    match t
    case TypeBool =>
    case TypeChar =>
    case TypeDouble =>
    case TypeInt2 =>
    case TypeInt4 =>
    case TypeInt8 =>
    case TypeString =>
  }

  /** is_valid_type_name: the name is one of the known type names. */
  function IsValidTypeName(name: string): (b: bool)
    ensures b <==> name in TypeNames
  {
    LookupTypeName(name) != TypeInvalid
  }

  // ---------------------------------------------------------------------
  // Schema definitions.

  /** The catalog's table of schemas, keyed by name (a string key). */
  datatype Catalog<S> = Catalog(schemas: ColHash.Hash<string, S>)

  ghost predicate Valid<S>(cat: Catalog<S>) {
    ColHash.Valid(cat.schemas)
  }

  /** The names a schema is defined for. */
  ghost function Names<S>(cat: Catalog<S>): set<string> {
    ColHash.View(cat.schemas).Keys
  }

  datatype CatalogError = DuplicateSchema(name: string)

  /** cat_get_schema: the schema defined for `name`, NULL (None) for an
      unknown name. */
  function GetSchema<S>(cat: Catalog<S>, name: string): (r: Option<S>)
    ensures r.None? <==> name !in Names(cat)
    ensures r.Some? ==> r.value == ColHash.View(cat.schemas)[name]
  {
    ColHash.Get(cat.schemas, name)
  }

  /** cat_make: a new catalog knows no schema. */
  function Make<S>(): (cat: Catalog<S>)
    ensures Valid(cat) && Names(cat) == {}
    ensures forall name :: GetSchema(cat, name).None?
  {
    Catalog(ColHash.Make())
  }

  /** cat_set_schema: defining a name twice is an error that leaves the
      first definition in place; otherwise the name gets the schema and
      every other name keeps its definition. */
  function SetSchema<S>(cat: Catalog<S>, name: string, schema: S): (r: Result<Catalog<S>, CatalogError>)
    requires Valid(cat)
    ensures r.Failure? <==> name in Names(cat)
    ensures r.Failure? ==> r.error == DuplicateSchema(name)
    ensures r.Success? ==> Valid(r.value) && Names(r.value) == Names(cat) + {name}
    ensures r.Success? ==> GetSchema(r.value, name) == Some(schema)
    ensures r.Success? ==> forall n :: n != name ==> GetSchema(r.value, n) == GetSchema(cat, n)
  {
    if GetSchema(cat, name).Some? then
      Failure(DuplicateSchema(name))
    else
      Success(Catalog(ColHash.Set(cat.schemas, name, Some(schema))))
  }
}
