/**
  Exactly what is listed at each kind of path, and what a look-up answers there: every name in full, and nothing
  else. The paths below a schema and a relation are written out, so that they do not depend on how entries are built.
*/
module Listings {
  import opened Wrappers
  import opened Text
  import opened QueryText
  import opened Paths
  import opened PathNames
  import opened Tree
  import Utf8

  function Dir(name: string, detail: Detail): FileInfo { FileInfo(name, Directory, 0, detail) }

  lemma SchemaName(schema: string)
    ensures ToPath(SchemaPath(schema)) == "/" + schema
  {
    Printed(SchemaPath(schema), [schema], "/" + schema);
  }

  lemma RelationName(schema: string, relation: string)
    ensures ToPath(RelationPath(schema, relation)) == "/" + schema + "/" + relation
  {
    TextOfTwo(schema, relation);
    Printed(RelationPath(schema, relation), [schema, relation], "/" + schema + "/" + relation);
  }

  lemma BelowRelation(p: DbPath, schema: string, relation: string, name: string)
    requires Components(p) == [schema, relation, name] && p.query == []
    ensures ToPath(p) == "/" + schema + "/" + relation + "/" + name
  {
    TextOfThree(schema, relation, name);
    Printed(p, [schema, relation, name], "/" + schema + "/" + relation + "/" + name);
  }

  lemma BelowFacet(p: DbPath, schema: string, relation: string, name: string, item: string)
    requires Components(p) == [schema, relation, name, item] && p.query == []
    ensures ToPath(p) == "/" + schema + "/" + relation + "/" + name + "/" + item
  {
    TextOfFour(schema, relation, name, item);
    Printed(p, [schema, relation, name, item], "/" + schema + "/" + relation + "/" + name + "/" + item);
  }

  lemma ListsAt(db: Database, path: string, p: DbPath)
    requires Parse(path) == Ok(p)
    ensures LsDb(db, path) == ListAt(db, p, path)
  {
  }

  // ------------------------------------------------------------------------------------------
  // The root and the schemas.

  /** The root lists the schemas, in order. */
  ghost predicate ListsSchemas(entries: seq<FileInfo>, schemas: seq<SchemaInfo>) {
    && |entries| == |schemas|
    && forall i :: 0 <= i < |schemas| ==> entries[i] == Dir("/" + schemas[i].name, OfSchema(schemas[i]))
  }

  lemma RootLists(db: Database, path: string, p: DbPath)
    requires Parse(path) == Ok(p) && p.kind.Root?
    ensures match db.listSchemas
            case Err(error) => LsDb(db, path) == Err(error)
            case Ok(schemas) => LsDb(db, path).Ok? && ListsSchemas(LsDb(db, path).value, schemas)
  {
    ListsAt(db, path, p);
    if db.listSchemas.Ok? {
      SchemasAreListed(db.listSchemas.value);
    }
  }

  lemma SchemasAreListed(schemas: seq<SchemaInfo>)
    ensures ListsSchemas(Map(SchemaEntry, schemas), schemas)
  {
    forall i | 0 <= i < |schemas| ensures SchemaEntry(schemas[i]) == Dir("/" + schemas[i].name, OfSchema(schemas[i])) {
      SchemaName(schemas[i].name);
    }
  }

  /** A schema is there if it is listed. */
  ghost predicate IsListed(schemas: seq<SchemaInfo>, name: string) {
    exists schema <- schemas :: schema.name == name
  }

  ghost predicate ListsRelationsOf(entries: seq<FileInfo>, schema: string, relations: seq<RelationInfo>) {
    && |entries| == |relations|
    && forall i :: 0 <= i < |relations| ==>
         entries[i] == Dir("/" + schema + "/" + relations[i].name, OfRelation(relations[i]))
  }

  /** A schema that is there lists its relations, in order; another is not found. */
  lemma SchemaLists(db: Database, path: string, p: DbPath, schema: string)
    requires Parse(path) == Ok(p) && p.kind.Schema? && p.schema == Some(schema)
    ensures ListsSchema(db, schema, LsDb(db, path))
  {
    ListsAt(db, path, p);
    SchemaListsAt(db, p, path, schema);
  }

  ghost predicate ListsSchema(db: Database, schema: string, listing: Result<seq<FileInfo>, DbError>) {
    match db.listSchemas
    case Err(error) => listing == Err(error)
    case Ok(schemas) =>
      if !IsListed(schemas, schema) then listing == Err(NotFound(schema))
      else
        match db.listRelations(schema)
        case Err(error) => listing == Err(error)
        case Ok(relations) => listing.Ok? && ListsRelationsOf(listing.value, schema, relations)
  }

  lemma SchemaListsAt(db: Database, p: DbPath, path: string, schema: string)
    requires p.kind.Schema? && p.schema == Some(schema)
    ensures ListsSchema(db, schema, ListAt(db, p, path))
  {
    if db.listRelations(schema).Ok? {
      RelationsAreListed(schema, db.listRelations(schema).value);
    }
  }

  lemma RelationsAreListed(schema: string, relations: seq<RelationInfo>)
    ensures ListsRelationsOf(Map(relation => RelationEntry(schema, relation), relations), schema, relations)
  {
    forall i | 0 <= i < |relations|
      ensures RelationEntry(schema, relations[i])
                == Dir("/" + schema + "/" + relations[i].name, OfRelation(relations[i]))
    {
      RelationName(schema, relations[i].name);
    }
  }

  // ------------------------------------------------------------------------------------------
  // Relations.

  /** A relation lists three directories, and a view two entries more. */
  lemma RelationLists(db: Database, path: string, p: DbPath, schema: string, relation: string)
    requires Parse(path) == Ok(p) && p.kind.Relation? && p.schema == Some(schema) && p.relation == Some(relation)
    ensures var above := "/" + schema + "/" + relation + "/";
            match db.relationInfo(schema, relation)
            case Err(error) => LsDb(db, path) == Err(error)
            case Ok(info) =>
              var always := [Dir(above + "columns", OfFacet(Columns)), Dir(above + "indexes", OfFacet(Indexes)),
                             Dir(above + "constraints", OfFacet(Constraints))];
              var ofViews := [Dir(above + "depends_on", OfFacet(DependsOn)),
                              FileInfo(above + "definition.sql", File, 0, OfDefinition)];
              LsDb(db, path) == Ok(if info.kind == View then always + ofViews else always)
  {
    ListsAt(db, path, p);
    RelationListsAt(db, p, path, schema, relation);
    EntriesOfRelation(schema, relation, Table, "columns", "indexes", "constraints", "depends_on", "definition.sql");
    EntriesOfRelation(schema, relation, View, "columns", "indexes", "constraints", "depends_on", "definition.sql");
  }

  lemma RelationListsAt(db: Database, p: DbPath, path: string, schema: string, relation: string)
    requires p.kind.Relation? && p.schema == Some(schema) && p.relation == Some(relation)
    ensures match db.relationInfo(schema, relation)
            case Err(error) => ListAt(db, p, path) == Err(error)
            case Ok(info) => ListAt(db, p, path) == Ok(RelationEntries(schema, relation, info.kind))
  {
  }

  lemma EntriesOfRelation(schema: string, relation: string, kind: RelationKind, columns: string, indexes: string,
                          constraints: string, dependsOn: string, definition: string)
    requires columns == "columns" && indexes == "indexes" && constraints == "constraints"
    requires dependsOn == "depends_on" && definition == "definition.sql"
    ensures var above := "/" + schema + "/" + relation + "/";
            var always := [Dir(above + columns, OfFacet(Columns)), Dir(above + indexes, OfFacet(Indexes)),
                           Dir(above + constraints, OfFacet(Constraints))];
            var ofViews := [Dir(above + dependsOn, OfFacet(DependsOn)),
                            FileInfo(above + definition, File, 0, OfDefinition)];
            RelationEntries(schema, relation, kind) == if kind == View then always + ofViews else always
  {
    BelowRelation(FacetPath(schema, relation, Columns, None), schema, relation, columns);
    BelowRelation(FacetPath(schema, relation, Indexes, None), schema, relation, indexes);
    BelowRelation(FacetPath(schema, relation, Constraints, None), schema, relation, constraints);
    BelowRelation(FacetPath(schema, relation, DependsOn, None), schema, relation, dependsOn);
    BelowRelation(DefinitionPath(schema, relation), schema, relation, definition);
  }

  // ------------------------------------------------------------------------------------------
  // Facets.

  /** The name of a facet in a path. */
  ghost predicate IsCalled(facet: DbFacet, name: string) {
    match facet
    case Columns => name == "columns"
    case Indexes => name == "indexes"
    case Constraints => name == "constraints"
    case DependsOn => name == "depends_on"
  }

  ghost predicate ListsItems(entries: seq<FileInfo>, above: string, facet: DbFacet, items: seq<Item>) {
    && |entries| == |items|
    && forall i :: 0 <= i < |items| ==>
         entries[i] == FileInfo(above + "/" + items[i].name, File, 0, OfItem(facet, items[i]))
  }

  /** Columns, indexes and constraints list what the database gives for them, in order. */
  lemma FacetLists(db: Database, path: string, p: DbPath, schema: string, relation: string, facet: DbFacet,
                   name: string)
    requires Parse(path) == Ok(p) && p.kind == Facet(facet, None)
    requires p.schema == Some(schema) && p.relation == Some(relation)
    requires IsCalled(facet, name) && facet != DependsOn
    ensures match db.relationInfo(schema, relation)
            case Err(error) => LsDb(db, path) == Err(error)
            case Ok(_) =>
              match db.listItems(facet, schema, relation)
              case Err(error) => LsDb(db, path) == Err(error)
              case Ok(items) =>
                && LsDb(db, path).Ok?
                && ListsItems(LsDb(db, path).value, "/" + schema + "/" + relation + "/" + name, facet, items)
  {
    ListsAt(db, path, p);
    if db.listItems(facet, schema, relation).Ok? {
      ItemsAreListed(schema, relation, facet, name, db.listItems(facet, schema, relation).value);
    }
  }

  lemma ItemsAreListed(schema: string, relation: string, facet: DbFacet, name: string, items: seq<Item>)
    requires IsCalled(facet, name)
    ensures ListsItems(Map(item => ItemEntry(schema, relation, facet, item), items),
                       "/" + schema + "/" + relation + "/" + name, facet, items)
  {
    forall i | 0 <= i < |items|
      ensures ItemEntry(schema, relation, facet, items[i]).name
              == "/" + schema + "/" + relation + "/" + name + "/" + items[i].name
    {
      BelowFacet(FacetPath(schema, relation, facet, Some(items[i].name)), schema, relation, name, items[i].name);
    }
  }

  /** A dependency names a relation behind its last dot, in the schema before it or, without one, in the view's own. */
  ghost predicate Names(dependency: string, own: string, schema: string, relation: string) {
    && '.' !in relation
    && ((dependency == relation && schema == own) || dependency == schema + "." + relation)
  }

  /** The entry of a dependency: a file of the relation's name, which points to the relation. */
  ghost predicate PointsTo(entry: FileInfo, above: string, own: string, dependency: string) {
    exists schema: string, relation: string ::
      && Names(dependency, own, schema, relation)
      && entry == FileInfo(above + "/" + relation, File, 0, OfTarget("/" + schema + "/" + relation))
  }

  /** Whatever its schema, the dependency has the view's own name. */
  ghost predicate IsOwn(dependency: string, view: string) {
    exists schema: string :: Names(dependency, schema, schema, view)
  }

  /** The entries are those of the dependencies but the view's own, each once and in order. */
  ghost predicate ListsTargets(entries: seq<FileInfo>, above: string, own: string, view: string,
                               dependencies: seq<string>)
    decreases |dependencies|
  {
    if dependencies == [] then entries == []
    else if IsOwn(dependencies[0], view) then ListsTargets(entries, above, own, view, dependencies[1..])
    else
      && entries != [] && PointsTo(entries[0], above, own, dependencies[0])
      && ListsTargets(entries[1..], above, own, view, dependencies[1..])
  }

  /** What a view depends on is listed in full; a table depends on nothing. */
  lemma DependenciesList(db: Database, path: string, p: DbPath, schema: string, relation: string, facet: DbFacet,
                         name: string)
    requires Parse(path) == Ok(p) && p.kind == Facet(facet, None)
    requires p.schema == Some(schema) && p.relation == Some(relation)
    requires facet == DependsOn && name == "depends_on"
    ensures ListsDependencies(db, schema, relation, "/" + schema + "/" + relation + "/" + name, LsDb(db, path))
  {
    ListsAt(db, path, p);
    FacetIsListed(db, p, schema, relation, facet, path);
    DependenciesListed(db, schema, relation, facet, name, "/" + schema + "/" + relation + "/" + name);
  }

  lemma FacetIsListed(db: Database, p: DbPath, schema: string, relation: string, facet: DbFacet, path: string)
    requires p.kind == Facet(facet, None) && p.schema == Some(schema) && p.relation == Some(relation)
    ensures ListAt(db, p, path) == FacetEntries(db, schema, relation, facet)
  {
  }

  ghost predicate ListsDependencies(db: Database, schema: string, relation: string, above: string,
                                    listing: Result<seq<FileInfo>, DbError>)
  {
    var info, definition := db.relationInfo(schema, relation), db.viewDefinition(schema, relation);
    if info.Err? then listing == Err(info.error)
    else if info.value.kind == Table then listing == Ok([])
    else if definition.Err? then listing == Err(definition.error)
    else listing.Ok? && ListsTargets(listing.value, above, schema, relation, db.viewDependencies(definition.value))
  }

  lemma DependenciesListed(db: Database, schema: string, relation: string, facet: DbFacet, name: string, above: string)
    requires facet.DependsOn? && IsCalled(facet, name) && above == "/" + schema + "/" + relation + "/" + name
    ensures ListsDependencies(db, schema, relation, above, FacetEntries(db, schema, relation, facet))
  {
    if db.viewDefinition(schema, relation).Ok? {
      TargetsAreListed(schema, relation, facet, name, above,
                       db.viewDependencies(db.viewDefinition(schema, relation).value));
    }
  }

  lemma IsOwnIff(dependency: string, view: string)
    ensures IsOwn(dependency, view) <==> IsSelf(view, dependency)
  {
    if IsSelf(view, dependency) {
      var (schema, relation) := Target([], dependency);
      assert Names(dependency, schema, schema, view);
    }
    if IsOwn(dependency, view) {
      var schema: string :| Names(dependency, schema, schema, view);
      if dependency != view {
        LastSplit(schema, '.', view);
      }
    }
  }

  lemma TargetPoints(schema: string, relation: string, facet: DbFacet, name: string, dependency: string)
    requires facet.DependsOn? && IsCalled(facet, name)
    ensures PointsTo(TargetEntry(schema, relation, dependency), "/" + schema + "/" + relation + "/" + name, schema,
                     dependency)
  {
    var (s, r) := Target(schema, dependency);
    BelowFacet(FacetPath(schema, relation, facet, Some(r)), schema, relation, name, r);
    RelationName(s, r);
    assert Names(dependency, schema, s, r);
  }

  lemma FirstKept(relation: string, dependencies: seq<string>)
    requires dependencies != []
    ensures OthersThan(relation, dependencies) ==
              (if IsSelf(relation, dependencies[0]) then [] else [dependencies[0]])
              + OthersThan(relation, dependencies[1..])
  {
  }

  lemma FirstTarget(schema: string, relation: string, first: string, rest: seq<string>)
    ensures TargetEntries(schema, relation, [first] + rest)
            == [TargetEntry(schema, relation, first)] + TargetEntries(schema, relation, rest)
  {
    MapFirst(dependency => TargetEntry(schema, relation, dependency), first, rest);
    assert TargetEntries(schema, relation, [first] + rest)[0] == TargetEntry(schema, relation, first);
    assert TargetEntries(schema, relation, [first] + rest)[1..] == TargetEntries(schema, relation, rest);
  }

  lemma MapFirst<A, B>(f: A -> B, first: A, rest: seq<A>)
    ensures Map(f, [first] + rest) == [f(first)] + Map(f, rest)
  {
    var all := [first] + rest;
    assert forall i :: 0 <= i < |rest| ==> all[i + 1] == rest[i];
  }

  lemma {:induction false} TargetsAreListed(schema: string, relation: string, facet: DbFacet, name: string,
                                            above: string, dependencies: seq<string>)
    requires facet.DependsOn? && IsCalled(facet, name) && above == "/" + schema + "/" + relation + "/" + name
    ensures ListsTargets(TargetEntries(schema, relation, OthersThan(relation, dependencies)), above, schema, relation,
                         dependencies)
  {
    if dependencies != [] {
      var first, rest := dependencies[0], OthersThan(relation, dependencies[1..]);
      TargetsAreListed(schema, relation, facet, name, above, dependencies[1..]);
      FirstKept(relation, dependencies);
      IsOwnIff(first, relation);
      if IsSelf(relation, first) {
        EmptyFirst(rest);
      } else {
        TargetPoints(schema, relation, facet, name, first);
        FirstTarget(schema, relation, first, rest);
        FirstListed(TargetEntry(schema, relation, first), TargetEntries(schema, relation, rest), above, schema,
                    relation, dependencies);
      }
    }
  }

  lemma FirstListed(first: FileInfo, rest: seq<FileInfo>, above: string, own: string, view: string,
                    dependencies: seq<string>)
    requires dependencies != [] && !IsOwn(dependencies[0], view) && PointsTo(first, above, own, dependencies[0])
    requires ListsTargets(rest, above, own, view, dependencies[1..])
    ensures ListsTargets([first] + rest, above, own, view, dependencies)
  {
    assert ([first] + rest)[1..] == rest;
  }

  // ------------------------------------------------------------------------------------------
  // Files, and what is not listed.

  lemma FilesListNothing(db: Database, path: string, p: DbPath)
    requires Parse(path) == Ok(p)
    requires p.kind.RelationData? || p.kind.ViewDefinition? || (p.kind.Facet? && p.kind.item.Some?)
    ensures LsDb(db, path) == Err(NotADirectory(path))
  {
    ListsAt(db, path, p);
    FileIsNoDirectory(db, p, path);
  }

  lemma FileIsNoDirectory(db: Database, p: DbPath, path: string)
    requires p.kind.RelationData? || p.kind.ViewDefinition? || (p.kind.Facet? && p.kind.item.Some?)
    ensures ListAt(db, p, path) == Err(NotADirectory(path))
  {
  }

  // ------------------------------------------------------------------------------------------
  // Look-ups.

  lemma InfoIsOf(db: Database, path: string, p: DbPath)
    requires Parse(path) == Ok(p)
    ensures InfoDb(db, path) == InfoAt(db, p)
  {
  }

  lemma RootInfo(db: Database, path: string, p: DbPath)
    requires Parse(path) == Ok(p) && p.kind.Root?
    ensures InfoDb(db, path) == Ok(Dir("/", OfRoot))
  {
    InfoIsOf(db, path, p);
  }

  /** A schema is a directory, as it is listed; another is not found. */
  lemma SchemaInfoIs(db: Database, path: string, p: DbPath, schema: string)
    requires Parse(path) == Ok(p) && p.kind.Schema? && p.schema == Some(schema)
    ensures DescribesSchema(db, schema, InfoDb(db, path))
  {
    InfoIsOf(db, path, p);
    SchemaInfoAt(db, p, schema);
  }

  ghost predicate DescribesSchema(db: Database, schema: string, info: Result<FileInfo, DbError>) {
    match db.listSchemas
    case Err(error) => info == Err(error)
    case Ok(schemas) =>
      if !IsListed(schemas, schema) then info == Err(NotFound(schema))
      else exists found <- schemas :: found.name == schema && info == Ok(Dir("/" + schema, OfSchema(found)))
  }

  lemma SchemaInfoAt(db: Database, p: DbPath, schema: string)
    requires p.kind.Schema? && p.schema == Some(schema)
    ensures DescribesSchema(db, schema, InfoAt(db, p))
  {
    SchemaName(schema);
  }

  /** A relation is a directory, under the name the database gives it. */
  lemma RelationInfoIs(db: Database, path: string, p: DbPath, schema: string, relation: string)
    requires Parse(path) == Ok(p) && p.kind.Relation? && p.schema == Some(schema) && p.relation == Some(relation)
    ensures match db.relationInfo(schema, relation)
            case Err(error) => InfoDb(db, path) == Err(error)
            case Ok(info) => InfoDb(db, path) == Ok(Dir("/" + schema + "/" + info.name, OfRelation(info)))
  {
    InfoIsOf(db, path, p);
    if db.relationInfo(schema, relation).Ok? {
      RelationName(schema, db.relationInfo(schema, relation).value.name);
    }
  }

  /** The ending of a data file. */
  ghost predicate IsEnding(format: DataFormat, ending: string) {
    match format
    case Parquet => ending == ".parquet"
    case Arrow => ending == ".arrow"
    case Csv => ending == ".csv"
    case Jsonl => ending == ".jsonl"
    case Sql => ending == ".sql"
  }

  lemma EndingIs(format: DataFormat, ending: string)
    requires IsEnding(format, ending)
    ensures ending == "." + Extension(format)
  {
  }

  /** The data of a relation is a file that says its format. */
  lemma DataInfo(db: Database, path: string, p: DbPath, schema: string, relation: string, format: DataFormat,
                 ending: string)
    requires Parse(path) == Ok(p) && p.kind == RelationData(format) && p.schema == Some(schema)
    requires p.relation == Some(relation) && IsEnding(format, ending)
    ensures match db.relationInfo(schema, relation)
            case Err(error) => InfoDb(db, path) == Err(error)
            case Ok(info) =>
              InfoDb(db, path)
                == Ok(FileInfo("/" + schema + "/" + relation + ending, File, 0, OfData(info.kind, format)))
  {
    InfoIsOf(db, path, p);
    EndingIs(format, ending);
    DataName(schema, relation, format, ending);
  }

  lemma DataName(schema: string, relation: string, format: DataFormat, ending: string)
    requires ending == "." + Extension(format)
    ensures ToPath(DataPath(schema, relation, format)) == "/" + schema + "/" + relation + ending
  {
    Assoc(relation, ".", Extension(format));
    TextOfTwo(schema, relation + ending);
    Assoc("/" + schema + "/", relation, ending);
    Printed(DataPath(schema, relation, format), [schema, relation + ending], "/" + schema + "/" + relation + ending);
  }

  /** A definition is a file of the size of its text. */
  lemma DefinitionInfo(db: Database, path: string, p: DbPath, schema: string, relation: string, name: string)
    requires Parse(path) == Ok(p) && p.kind.ViewDefinition? && p.schema == Some(schema) && p.relation == Some(relation)
    requires name == "definition.sql"
    ensures DescribesDefinition(db, schema, relation, name, InfoDb(db, path))
  {
    InfoIsOf(db, path, p);
    DefinitionInfoAt(db, p, schema, relation, name);
  }

  ghost predicate DescribesDefinition(db: Database, schema: string, relation: string, name: string,
                                      info: Result<FileInfo, DbError>)
  {
    match db.viewDefinition(schema, relation)
    case Err(error) => info == Err(error)
    case Ok(text) =>
      info == Ok(FileInfo("/" + schema + "/" + relation + "/" + name, File, |Utf8.Encode(text)|, OfDefinition))
  }

  lemma DefinitionInfoAt(db: Database, p: DbPath, schema: string, relation: string, name: string)
    requires p.kind.ViewDefinition? && p.schema == Some(schema) && p.relation == Some(relation)
    requires name == "definition.sql"
    ensures DescribesDefinition(db, schema, relation, name, InfoAt(db, p))
  {
    DefinitionEntryIs(schema, relation, name);
  }

  lemma DefinitionEntryIs(schema: string, relation: string, name: string)
    requires name == "definition.sql"
    ensures forall size: nat :: DefinitionEntry(schema, relation, size)
                                == FileInfo("/" + schema + "/" + relation + "/" + name, File, size, OfDefinition)
  {
    BelowRelation(DefinitionPath(schema, relation), schema, relation, name);
  }

  /** The directory of a facet is there if its relation is. */
  lemma FacetInfo(db: Database, path: string, p: DbPath, schema: string, relation: string, facet: DbFacet,
                  name: string)
    requires Parse(path) == Ok(p) && p.kind == Facet(facet, None)
    requires p.schema == Some(schema) && p.relation == Some(relation)
    requires IsCalled(facet, name)
    ensures match db.relationInfo(schema, relation)
            case Err(error) => InfoDb(db, path) == Err(error)
            case Ok(_) => InfoDb(db, path) == Ok(Dir("/" + schema + "/" + relation + "/" + name, OfFacet(facet)))
  {
    InfoIsOf(db, path, p);
    BelowRelation(FacetPath(schema, relation, facet, None), schema, relation, name);
  }

  /** The name ends in `/` and the item. */
  ghost predicate EndsInItem(name: string, item: string) {
    '/' !in item && (name == item || exists above: string :: name == above + "/" + item)
  }

  /** A file of a facet is the first listed there that ends in its item; without one it is not found. */
  ghost predicate IsFirst(entries: seq<FileInfo>, item: string, found: Result<FileInfo, DbError>) {
    if entries == [] then found == Err(NotFound(item))
    else if EndsInItem(entries[0].name, item) then found == Ok(entries[0])
    else IsFirst(entries[1..], item, found)
  }

  lemma ItemInfo(db: Database, path: string, p: DbPath, above: string, q: DbPath, item: string)
    requires Parse(path) == Ok(p) && p.kind.Facet? && p.kind.item == Some(item) && p.schema.Some? && p.relation.Some?
    requires Parse(above) == Ok(q) && q == p.(kind := Facet(p.kind.facet, None), query := q.query)
    ensures FirstOf(LsDb(db, above), item, InfoDb(db, path))
  {
    InfoIsOf(db, path, p);
    ListsAt(db, above, q);
    ItemInfoAt(db, p, q, above, item);
  }

  ghost predicate FirstOf(listing: Result<seq<FileInfo>, DbError>, item: string, found: Result<FileInfo, DbError>) {
    if listing.Err? then found == Err(listing.error) else IsFirst(listing.value, item, found)
  }

  lemma ItemInfoAt(db: Database, p: DbPath, q: DbPath, above: string, item: string)
    requires p.kind.Facet? && p.kind.item == Some(item) && p.schema.Some? && p.relation.Some?
    requires q == p.(kind := Facet(p.kind.facet, None), query := q.query)
    ensures FirstOf(ListAt(db, q, above), item, InfoAt(db, p))
  {
    FacetIsListed(db, q, p.schema.value, p.relation.value, p.kind.facet, above);
    ItemIsFound(db, p.schema.value, p.relation.value, p.kind.facet, item);
  }

  lemma ItemIsFound(db: Database, schema: string, relation: string, facet: DbFacet, item: string)
    ensures FirstOf(FacetEntries(db, schema, relation, facet), item, FacetItemInfo(db, schema, relation, facet, item))
  {
    if FacetEntries(db, schema, relation, facet).Ok? {
      var entries := FacetEntries(db, schema, relation, facet).value;
      FirstFound(entries, item, FacetItemInfo(db, schema, relation, facet, item));
    }
  }

  lemma LastNameIff(name: string, item: string)
    ensures LastName(name) == item <==> EndsInItem(name, item)
  {
    match RSplitOnce(name, '/')
    case None =>
    case Some((a, b)) => assert name == a + "/" + b;
    if EndsInItem(name, item) && name != item {
      var above: string :| name == above + "/" + item;
      LastSplit(above, '/', item);
    }
  }

  lemma {:induction false} FirstFound(entries: seq<FileInfo>, item: string, found: Result<FileInfo, DbError>)
    requires var first := Find((entry: FileInfo) => LastName(entry.name) == item, entries);
             found == if first.Some? then Ok(first.value) else Err(NotFound(item))
    ensures IsFirst(entries, item, found)
  {
    if entries != [] {
      LastNameIff(entries[0].name, item);
      if !EndsInItem(entries[0].name, item) {
        FirstFound(entries[1..], item, found);
      }
    }
  }
}
