/**
  The directory tree: `ls_db` and `info_db` over the answers of a database. A listed name leads back to
  the entry it was listed for, and the tree is at most four levels deep.
*/
module Tree {
  import opened Wrappers
  import opened Text
  import opened QueryText
  import opened Paths
  import Utf8

  datatype RelationKind = Table | View

  // `attributes` stands for what the program only copies into the extra fields.
  datatype SchemaInfo = SchemaInfo(name: string, attributes: string)
  datatype RelationInfo = RelationInfo(name: string, kind: RelationKind, rowCount: Option<nat>, attributes: string)
  datatype Item = Item(name: string, attributes: string)

  datatype DbError =
    | NotFound(name: string)
    | NotADirectory(path: string)
    | InvalidPath(error: PathError)
    | MissingName
    | Foreign(message: string)

  /** The answers of the `Database` methods; `listItems` is `list_columns`, `list_indexes` and `list_constraints`. */
  datatype Database = Database(
    listSchemas: Result<seq<SchemaInfo>, DbError>,
    listRelations: string -> Result<seq<RelationInfo>, DbError>,
    relationInfo: (string, string) -> Result<RelationInfo, DbError>,
    listItems: (DbFacet, string, string) -> Result<seq<Item>, DbError>,
    viewDefinition: (string, string) -> Result<string, DbError>,
    viewDependencies: string -> seq<string>)

  datatype FileType = Directory | File

  /** The extra fields, by the kind of thing they describe. */
  datatype Detail =
    | OfRoot
    | OfSchema(schema: SchemaInfo)
    | OfRelation(relation: RelationInfo)
    | OfFacet(facet: DbFacet)
    | OfItem(facet: DbFacet, item: Item)
    | OfTarget(target: string)
    | OfData(kind: RelationKind, format: DataFormat)
    | OfDefinition

  datatype FileInfo = FileInfo(name: string, fileType: FileType, size: nat, detail: Detail)

  // ------------------------------------------------------------------------------------------
  // Entries.

  function SchemaPath(schema: string): DbPath { DbPath(Some(schema), None, Schema, []) }

  function RelationPath(schema: string, relation: string): DbPath { DbPath(Some(schema), Some(relation), Relation, []) }

  function FacetPath(schema: string, relation: string, facet: DbFacet, item: Option<string>): DbPath {
    DbPath(Some(schema), Some(relation), Facet(facet, item), [])
  }

  function DefinitionPath(schema: string, relation: string): DbPath {
    DbPath(Some(schema), Some(relation), ViewDefinition, [])
  }

  function DataPath(schema: string, relation: string, format: DataFormat): DbPath {
    DbPath(Some(schema), Some(relation), RelationData(format), [])
  }

  function SchemaEntry(schema: SchemaInfo): FileInfo {
    FileInfo(ToPath(SchemaPath(schema.name)), Directory, 0, OfSchema(schema))
  }

  function RelationEntry(schema: string, relation: RelationInfo): FileInfo {
    FileInfo(ToPath(RelationPath(schema, relation.name)), Directory, 0, OfRelation(relation))
  }

  function FacetEntry(schema: string, relation: string, facet: DbFacet): FileInfo {
    FileInfo(ToPath(FacetPath(schema, relation, facet, None)), Directory, 0, OfFacet(facet))
  }

  function ItemEntry(schema: string, relation: string, facet: DbFacet, item: Item): FileInfo {
    FileInfo(ToPath(FacetPath(schema, relation, facet, Some(item.name))), File, 0, OfItem(facet, item))
  }

  function DefinitionEntry(schema: string, relation: string, size: nat): FileInfo {
    FileInfo(ToPath(DefinitionPath(schema, relation)), File, size, OfDefinition)
  }

  function DataEntry(schema: string, relation: RelationInfo, name: string, format: DataFormat): FileInfo {
    FileInfo(ToPath(DataPath(schema, name, format)), File, 0, OfData(relation.kind, format))
  }

  /** The schema and relation a dependency names. */
  function Target(schema: string, dependency: string): (string, string) {
    match RSplitOnce(dependency, '.') case Some(pair) => pair case None => (schema, dependency)
  }

  function TargetEntry(schema: string, relation: string, dependency: string): FileInfo {
    var (targetSchema, targetRelation) := Target(schema, dependency);
    FileInfo(ToPath(FacetPath(schema, relation, DependsOn, Some(targetRelation))), File, 0,
             OfTarget(ToPath(RelationPath(targetSchema, targetRelation))))
  }

  // ------------------------------------------------------------------------------------------
  // Listing and information.

  function Map<A, B>(f: A -> B, s: seq<A>): seq<B> {
    seq(|s|, i requires 0 <= i < |s| => f(s[i]))
  }

  function Filter<A(!new)>(keep: A -> bool, s: seq<A>): (r: seq<A>)
    ensures forall x :: x in r <==> x in s && keep(x)
  {
    if s == [] then []
    else
      assert s == [s[0]] + s[1..];
      (if keep(s[0]) then [s[0]] else []) + Filter(keep, s[1..])
  }

  function Find<A>(wanted: A -> bool, s: seq<A>): (r: Option<A>)
    ensures r.Some? ==> r.value in s && wanted(r.value)
    ensures r.None? ==> forall x <- s :: !wanted(x)
  {
    if s == [] then None
    else
      assert s == [s[0]] + s[1..];
      if wanted(s[0]) then Some(s[0]) else Find(wanted, s[1..])
  }

  function EnsureSchema(db: Database, name: string): Result<SchemaInfo, DbError> {
    match db.listSchemas
    case Err(error) => Err(error)
    case Ok(schemas) =>
      match Find((schema: SchemaInfo) => schema.name == name, schemas)
      case Some(schema) => Ok(schema)
      case None => Err(NotFound(name))
  }

  function Dependencies(db: Database, relation: string, definition: string): seq<string> {
    OthersThan(relation, db.viewDependencies(definition))
  }

  function OthersThan(relation: string, dependencies: seq<string>): seq<string> {
    Filter(dependency => !IsSelf(relation, dependency), dependencies)
  }

  /** Whatever its schema, a dependency of the view's own name is taken for the view. */
  predicate IsSelf(relation: string, dependency: string) {
    Target([], dependency).1 == relation
  }

  function TargetEntries(schema: string, relation: string, dependencies: seq<string>): seq<FileInfo> {
    Map(dependency => TargetEntry(schema, relation, dependency), dependencies)
  }

  function FacetEntries(db: Database, schema: string, relation: string, facet: DbFacet): Result<seq<FileInfo>, DbError>
  {
    match db.relationInfo(schema, relation)
    case Err(error) => Err(error)
    case Ok(info) =>
      if facet.DependsOn? then
        if info.kind != View then Ok([])
        else
          match db.viewDefinition(schema, relation)
          case Err(error) => Err(error)
          case Ok(definition) => Ok(TargetEntries(schema, relation, Dependencies(db, relation, definition)))
      else
        match db.listItems(facet, schema, relation)
        case Err(error) => Err(error)
        case Ok(items) => Ok(Map(item => ItemEntry(schema, relation, facet, item), items))
  }

  function LastName(name: string): string {
    match RSplitOnce(name, '/') case None => name case Some((_, last)) => last
  }

  function FacetItemInfo(db: Database, schema: string, relation: string, facet: DbFacet,
                         item: string): Result<FileInfo, DbError>
  {
    match FacetEntries(db, schema, relation, facet)
    case Err(error) => Err(error)
    case Ok(entries) =>
      match Find((entry: FileInfo) => LastName(entry.name) == item, entries)
      case Some(entry) => Ok(entry)
      case None => Err(NotFound(item))
  }

  function RelationEntries(schema: string, relation: string, kind: RelationKind): seq<FileInfo> {
    [FacetEntry(schema, relation, Columns), FacetEntry(schema, relation, Indexes),
     FacetEntry(schema, relation, Constraints)]
    + if kind == View then [FacetEntry(schema, relation, DependsOn), DefinitionEntry(schema, relation, 0)] else []
  }

  function SchemaEntries(db: Database, schema: string): Result<seq<FileInfo>, DbError> {
    match EnsureSchema(db, schema)
    case Err(error) => Err(error)
    case Ok(_) =>
      match db.listRelations(schema)
      case Err(error) => Err(error)
      case Ok(relations) => Ok(Map(relation => RelationEntry(schema, relation), relations))
  }

  function ListAt(db: Database, p: DbPath, path: string): Result<seq<FileInfo>, DbError> {
    match p.kind
    case Root => (match db.listSchemas case Err(error) => Err(error) case Ok(schemas) => Ok(Map(SchemaEntry, schemas)))
    case Schema =>
      if p.schema.None? then Err(MissingName)
      else SchemaEntries(db, p.schema.value)
    case Relation =>
      if p.schema.None? || p.relation.None? then Err(MissingName)
      else
        (match db.relationInfo(p.schema.value, p.relation.value)
         case Err(error) => Err(error)
         case Ok(info) => Ok(RelationEntries(p.schema.value, p.relation.value, info.kind)))
    case Facet(facet, None) =>
      if p.schema.None? || p.relation.None? then Err(MissingName)
      else FacetEntries(db, p.schema.value, p.relation.value, facet)
    case _ => Err(NotADirectory(path))
  }

  function InfoAt(db: Database, p: DbPath): Result<FileInfo, DbError> {
    if p.kind.Root? then Ok(FileInfo("/", Directory, 0, OfRoot))
    else if p.schema.None? then Err(MissingName)
    else if p.kind.Schema? then
      match EnsureSchema(db, p.schema.value) case Err(error) => Err(error) case Ok(schema) => Ok(SchemaEntry(schema))
    else if p.relation.None? then Err(MissingName)
    else
      var schema, relation := p.schema.value, p.relation.value;
      match p.kind
      case ViewDefinition =>
        (match db.viewDefinition(schema, relation)
         case Err(error) => Err(error)
         case Ok(definition) => Ok(DefinitionEntry(schema, relation, |Utf8.Encode(definition)|)))
      case Facet(facet, Some(item)) => FacetItemInfo(db, schema, relation, facet, item)
      case Relation =>
        (match db.relationInfo(schema, relation)
         case Err(error) => Err(error)
         case Ok(info) => Ok(RelationEntry(schema, info)))
      case Facet(facet, None) =>
        (match db.relationInfo(schema, relation)
         case Err(error) => Err(error)
         case Ok(_) => Ok(FacetEntry(schema, relation, facet)))
      case RelationData(format) =>
        match db.relationInfo(schema, relation)
        case Err(error) => Err(error)
        case Ok(info) => Ok(DataEntry(schema, info, relation, format))
  }

  function LsDb(db: Database, path: string): Result<seq<FileInfo>, DbError> {
    match Parse(path) case Err(error) => Err(InvalidPath(error)) case Ok(p) => ListAt(db, p, path)
  }

  function InfoDb(db: Database, path: string): Result<FileInfo, DbError> {
    match Parse(path) case Err(error) => Err(InvalidPath(error)) case Ok(p) => InfoAt(db, p)
  }

  // ------------------------------------------------------------------------------------------
  // Databases whose answers agree, and whose names are fit for paths.

  ghost predicate ListsRelations(db: Database, schema: string) {
    && db.listRelations(schema).Ok?
    && forall relation <- db.listRelations(schema).value :: Knows(db, schema, relation.name)
  }

  /** The relation can be looked up under this very name; what is found there may say more than a listing does. */
  ghost predicate Knows(db: Database, schema: string, relation: string) {
    db.relationInfo(schema, relation).Ok? && db.relationInfo(schema, relation).value.name == relation
  }

  ghost predicate Describes(db: Database, schema: string, relation: string) {
    db.relationInfo(schema, relation).Ok? ==>
      && db.listItems(Columns, schema, relation).Ok? && db.listItems(Indexes, schema, relation).Ok?
      && db.listItems(Constraints, schema, relation).Ok?
      && (db.relationInfo(schema, relation).value.kind.View? ==> db.viewDefinition(schema, relation).Ok?)
  }

  /** What one method names, the others know. */
  ghost predicate Consistent(db: Database) {
    && (db.listSchemas.Ok? ==> forall schema <- db.listSchemas.value :: ListsRelations(db, schema.name))
    && forall schema, relation :: Describes(db, schema, relation)
  }

  /** A relation found under a name has that name; it need not, where names are compared without regard to case. */
  ghost predicate AnswersByName(db: Database) {
    forall schema, relation :: db.relationInfo(schema, relation).Ok? ==> Knows(db, schema, relation)
  }

  ghost predicate GoodName(name: string) {
    IsComponent(name) && !EndsWithSpace(name)
  }

  ghost predicate GoodRelationName(name: string) {
    GoodName(name) && SplitRelationFormat(name) == None
  }

  ghost predicate GoodItems(db: Database, facet: DbFacet, schema: string, relation: string) {
    db.listItems(facet, schema, relation).Ok? ==>
      forall item <- db.listItems(facet, schema, relation).value :: GoodName(item.name)
  }

  ghost predicate GoodTargets(db: Database, schema: string, relation: string) {
    db.viewDefinition(schema, relation).Ok? ==>
      forall dependency <- db.viewDependencies(db.viewDefinition(schema, relation).value) ::
        GoodTarget(schema, dependency)
  }

  ghost predicate GoodTarget(schema: string, dependency: string) {
    GoodName(Target(schema, dependency).1)
  }

  ghost predicate GoodRelations(db: Database, schema: string) {
    db.listRelations(schema).Ok? ==>
      forall relation <- db.listRelations(schema).value :: GoodRelationName(relation.name)
  }

  ghost predicate WellNamed(db: Database) {
    && (db.listSchemas.Ok? ==> forall schema <- db.listSchemas.value :: GoodName(schema.name))
    && (forall schema :: GoodRelations(db, schema))
    && (forall facet, schema, relation :: GoodItems(db, facet, schema, relation))
    && forall schema, relation :: GoodTargets(db, schema, relation)
  }

  // ------------------------------------------------------------------------------------------
  // Coherence.

  ghost predicate OneBelow(p: DbPath, q: DbPath) {
    var above, parts := Components(p), Components(q);
    |parts| == |above| + 1 && parts[..|above|] == above
  }

  /**
    What looking an entry up says of it, beyond its name and type. A relation may be described in more detail and
    a definition has its size; anything else is one of the listed entries.
  */
  ghost predicate SameDetail(entries: seq<FileInfo>, entry: FileInfo, info: FileInfo) {
    match entry.detail
    case OfRelation(_) => info.detail.OfRelation?
    case OfDefinition => info == entry.(size := info.size)
    case _ => info in entries
  }

  /** The entry's own name, looked up, tells the same story as the listing of `p` it came from. */
  ghost predicate Coherent(db: Database, p: DbPath, entries: seq<FileInfo>, entry: FileInfo) {
    && Parse(entry.name).Ok? && OneBelow(p, Parse(entry.name).value)
    && InfoDb(db, entry.name).Ok?
    && var info := InfoDb(db, entry.name).value;
    && info.name == entry.name && info.fileType == entry.fileType
    && SameDetail(entries, entry, info)
    && match entry.fileType
       case Directory => LsDb(db, entry.name).Ok?
       case File => LsDb(db, entry.name) == Err(NotADirectory(entry.name))
  }

  /** Coherence in terms of the path the entry was printed from. */
  ghost predicate Stands(db: Database, p: DbPath, q: DbPath, entries: seq<FileInfo>, entry: FileInfo) {
    && OneBelow(p, q)
    && InfoAt(db, q).Ok?
    && var info := InfoAt(db, q).value;
    && info.name == entry.name && info.fileType == entry.fileType
    && SameDetail(entries, entry, info)
    && match entry.fileType
       case Directory => ListAt(db, q, entry.name).Ok?
       case File => ListAt(db, q, entry.name) == Err(NotADirectory(entry.name))
  }

  lemma CoherentIfReadBack(db: Database, p: DbPath, q: DbPath, entries: seq<FileInfo>, entry: FileInfo)
    requires entry.name == ToPath(q) && q.query == [] && Structured(q) && LastNameKept(q)
    requires Stands(db, p, q, entries, entry)
    ensures Coherent(db, p, entries, entry)
  {
    BarePathRoundTrip(q);
  }

  lemma CoherentIsStands(db: Database, p: DbPath, q: DbPath, entries: seq<FileInfo>, entry: FileInfo)
    requires Parse(entry.name) == Ok(q)
    ensures Coherent(db, p, entries, entry) <==> Stands(db, p, q, entries, entry)
  {
  }

  /** Neither a listing nor a look-up asks for the query. */
  lemma QueryIsIgnored(db: Database, q: DbPath, query: seq<Pair>, path: string)
    ensures Components(q.(query := query)) == Components(q)
    ensures InfoAt(db, q.(query := query)) == InfoAt(db, q)
    ensures ListAt(db, q.(query := query), path) == ListAt(db, q, path)
  {
  }

  lemma StandsIgnoresQuery(db: Database, p: DbPath, q: DbPath, query: seq<Pair>, entries: seq<FileInfo>,
                           entry: FileInfo)
    ensures Stands(db, p, q.(query := query), entries, entry) <==> Stands(db, p, q, entries, entry)
  {
    QueryIsIgnored(db, q, query, entry.name);
  }

  lemma SchemaStands(db: Database, p: DbPath, schemas: seq<SchemaInfo>, schema: SchemaInfo)
    requires Consistent(db) && db.listSchemas == Ok(schemas) && schema in schemas && p.kind.Root?
    ensures Stands(db, p, SchemaPath(schema.name), Map(SchemaEntry, schemas), SchemaEntry(schema))
  {
    var found := EnsureSchema(db, schema.name).value;
    var i :| 0 <= i < |schemas| && schemas[i] == found;
    assert Map(SchemaEntry, schemas)[i] == SchemaEntry(found);
    assert ListsRelations(db, schema.name);
  }

  lemma RelationListIsOk(db: Database, schema: string, relation: string, path: string)
    requires db.relationInfo(schema, relation).Ok?
    ensures ListAt(db, RelationPath(schema, relation), path).Ok?
  {
  }

  lemma RelationStands(db: Database, p: DbPath, schema: string, relation: RelationInfo, entries: seq<FileInfo>)
    requires Knows(db, schema, relation.name) && p.kind.Schema? && p.schema == Some(schema)
    ensures Stands(db, p, RelationPath(schema, relation.name), entries, RelationEntry(schema, relation))
  {
    FoundStands(db, p, schema, relation, entries, relation.name);
  }

  /** The same, if the database finds the relation under the name `x`. */
  lemma FoundStands(db: Database, p: DbPath, schema: string, relation: RelationInfo, entries: seq<FileInfo>, x: string)
    requires p.kind.Schema? && p.schema == Some(schema)
    requires db.relationInfo(schema, x).Ok? && db.relationInfo(schema, x).value.name == relation.name
    ensures Stands(db, p, RelationPath(schema, x), entries, RelationEntry(schema, relation))
  {
    RelationListIsOk(db, schema, x, RelationEntry(schema, relation).name);
    Below([schema], x);
  }

  lemma FacetListIsOk(db: Database, schema: string, relation: string, facet: DbFacet)
    requires Describes(db, schema, relation) && db.relationInfo(schema, relation).Ok?
    ensures FacetEntries(db, schema, relation, facet).Ok?
  {
  }

  lemma FacetStands(db: Database, p: DbPath, schema: string, relation: string, facet: DbFacet, entries: seq<FileInfo>)
    requires Consistent(db) && db.relationInfo(schema, relation).Ok?
    requires p.kind.Relation? && p.schema == Some(schema) && p.relation == Some(relation)
    requires FacetEntry(schema, relation, facet) in entries
    ensures Stands(db, p, FacetPath(schema, relation, facet, None), entries, FacetEntry(schema, relation, facet))
  {
    assert Describes(db, schema, relation);
    FacetListIsOk(db, schema, relation, facet);
  }

  lemma DefinitionStands(db: Database, p: DbPath, schema: string, relation: string, entries: seq<FileInfo>)
    requires Consistent(db) && db.relationInfo(schema, relation).Ok?
    requires db.relationInfo(schema, relation).value.kind.View?
    requires p.kind.Relation? && p.schema == Some(schema) && p.relation == Some(relation)
    ensures Stands(db, p, DefinitionPath(schema, relation), entries, DefinitionEntry(schema, relation, 0))
  {
    assert Describes(db, schema, relation);
    Below([schema, relation], DEFINITION);
  }

  lemma Below(above: seq<string>, last: string)
    ensures |above + [last]| == |above| + 1 && (above + [last])[..|above|] == above
  {
  }

  lemma LastOfPath(above: seq<string>, last: string)
    requires above != [] && '/' !in last
    ensures LastName(PathText(above + [last])) == last
  {
    var front := Join(above, "/");
    JoinSnoc(above, last, "/");
    Assoc("/", front + "/", last);
    Assoc("/", front, "/");
    LastSplit("/" + front, '/', last);
  }

  lemma ItemNameEnds(schema: string, relation: string, facet: DbFacet, item: string)
    requires '/' !in item
    ensures LastName(ToPath(FacetPath(schema, relation, facet, Some(item)))) == item
  {
    var q := FacetPath(schema, relation, facet, Some(item));
    LastOfPath([schema, relation, FacetName(facet)], item);
    EmptyLast(PathText(Components(q)));
  }

  /** Every facet entry names an item of the facet, well named. */
  ghost predicate ItemFile(schema: string, relation: string, facet: DbFacet, entry: FileInfo, item: string) {
    entry.name == ToPath(FacetPath(schema, relation, facet, Some(item))) && entry.fileType.File? && GoodName(item)
    && !entry.detail.OfDefinition? && !entry.detail.OfRelation?
  }

  lemma TargetIsItem(schema: string, relation: string, dependency: string)
    requires GoodTarget(schema, dependency)
    ensures ItemFile(schema, relation, DependsOn, TargetEntry(schema, relation, dependency),
                     Target(schema, dependency).1)
  {
  }

  lemma TargetsAreItems(db: Database, schema: string, relation: string, entry: FileInfo) returns (item: string)
    requires WellNamed(db) && FacetEntries(db, schema, relation, DependsOn).Ok?
    requires entry in FacetEntries(db, schema, relation, DependsOn).value
    ensures ItemFile(schema, relation, DependsOn, entry, item)
  {
    assert GoodTargets(db, schema, relation);
    var dependencies := Dependencies(db, relation, db.viewDefinition(schema, relation).value);
    assert forall dependency <- dependencies :: GoodTarget(schema, dependency);
    item := EntryOfTarget(schema, relation, dependencies, entry);
  }

  lemma EntryOfTarget(schema: string, relation: string, dependencies: seq<string>, entry: FileInfo)
    returns (item: string)
    requires entry in TargetEntries(schema, relation, dependencies)
    requires forall dependency <- dependencies :: GoodTarget(schema, dependency)
    ensures ItemFile(schema, relation, DependsOn, entry, item)
  {
    var i :| 0 <= i < |dependencies| && TargetEntries(schema, relation, dependencies)[i] == entry;
    assert dependencies[i] in dependencies;
    item := Target(schema, dependencies[i]).1;
    TargetIsItem(schema, relation, dependencies[i]);
  }

  lemma IndexIn<A, B>(f: A -> B, s: seq<A>, y: B) returns (i: nat)
    requires y in Map(f, s)
    ensures i < |s| && y == f(s[i])
  {
    i :| i < |Map(f, s)| && Map(f, s)[i] == y;
  }

  lemma ItemsAreItems(db: Database, schema: string, relation: string, facet: DbFacet, entry: FileInfo)
    returns (item: string)
    requires WellNamed(db) && !facet.DependsOn? && FacetEntries(db, schema, relation, facet).Ok?
    requires entry in FacetEntries(db, schema, relation, facet).value
    ensures ItemFile(schema, relation, facet, entry, item)
  {
    assert GoodItems(db, facet, schema, relation);
    var items := db.listItems(facet, schema, relation).value;
    var i :| 0 <= i < |items| && entry == ItemEntry(schema, relation, facet, items[i]);
    item := items[i].name;
    assert items[i] in items;
  }

  lemma FacetEntriesAreItems(db: Database, schema: string, relation: string, facet: DbFacet, entry: FileInfo)
    returns (item: string)
    requires WellNamed(db) && FacetEntries(db, schema, relation, facet).Ok?
    requires entry in FacetEntries(db, schema, relation, facet).value
    ensures ItemFile(schema, relation, facet, entry, item)
  {
    if facet.DependsOn? {
      item := TargetsAreItems(db, schema, relation, entry);
    } else {
      item := ItemsAreItems(db, schema, relation, facet, entry);
    }
  }

  lemma ItemInfoIsListed(db: Database, schema: string, relation: string, facet: DbFacet, entry: FileInfo, item: string)
    returns (info: FileInfo)
    requires WellNamed(db) && FacetEntries(db, schema, relation, facet).Ok?
    requires entry in FacetEntries(db, schema, relation, facet).value
    requires ItemFile(schema, relation, facet, entry, item)
    ensures FacetItemInfo(db, schema, relation, facet, item) == Ok(info)
    ensures info in FacetEntries(db, schema, relation, facet).value
    ensures info.name == entry.name && info.fileType.File?
  {
    ItemNameEnds(schema, relation, facet, item);
    info := FacetItemInfo(db, schema, relation, facet, item).value;
    var other := FacetEntriesAreItems(db, schema, relation, facet, info);
    ItemNameEnds(schema, relation, facet, other);
  }

  lemma ItemStands(db: Database, p: DbPath, schema: string, relation: string, facet: DbFacet, entry: FileInfo,
                   item: string, entries: seq<FileInfo>)
    requires WellNamed(db) && FacetEntries(db, schema, relation, facet) == Ok(entries) && entry in entries
    requires p.kind == Facet(facet, None) && p.schema == Some(schema) && p.relation == Some(relation)
    requires ItemFile(schema, relation, facet, entry, item)
    ensures Stands(db, p, FacetPath(schema, relation, facet, Some(item)), entries, entry)
  {
    var info := ItemInfoIsListed(db, schema, relation, facet, entry, item);
    FacetComponents(p, schema, relation, facet);
    FileStands(db, p, schema, relation, facet, item, entries, entry, info);
  }

  lemma FacetComponents(p: DbPath, schema: string, relation: string, facet: DbFacet)
    requires p.kind == Facet(facet, None) && p.schema == Some(schema) && p.relation == Some(relation)
    ensures Components(p) == Components(FacetPath(schema, relation, facet, None))
  {
  }

  lemma ItemIsBelow(schema: string, relation: string, facet: DbFacet, item: string)
    ensures OneBelow(FacetPath(schema, relation, facet, None), FacetPath(schema, relation, facet, Some(item)))
  {
    Below([schema, relation, FacetName(facet)], item);
  }

  /** For a file of a facet, all that is left to ask is what the look-up finds. */
  lemma FileStands(db: Database, p: DbPath, schema: string, relation: string, facet: DbFacet, item: string,
                   entries: seq<FileInfo>, entry: FileInfo, info: FileInfo)
    requires Components(p) == Components(FacetPath(schema, relation, facet, None))
    requires FacetItemInfo(db, schema, relation, facet, item) == Ok(info)
    requires entry.fileType.File? && !entry.detail.OfDefinition? && !entry.detail.OfRelation?
    requires info in entries && info.fileType.File?
    ensures Stands(db, p, FacetPath(schema, relation, facet, Some(item)), entries, entry) <==> info.name == entry.name
  {
    ItemIsBelow(schema, relation, facet, item);
  }

  // One lemma for each kind of directory.

  lemma RootListingIsCoherent(db: Database, p: DbPath, path: string, entry: FileInfo)
    requires Consistent(db) && WellNamed(db) && p.kind.Root?
    requires ListAt(db, p, path).Ok? && entry in ListAt(db, p, path).value
    ensures Coherent(db, p, ListAt(db, p, path).value, entry)
  {
    var schemas := db.listSchemas.value;
    var i :| 0 <= i < |schemas| && entry == SchemaEntry(schemas[i]);
    assert schemas[i] in schemas;
    SchemaStands(db, p, schemas, schemas[i]);
    CoherentIfReadBack(db, p, SchemaPath(schemas[i].name), ListAt(db, p, path).value, entry);
  }

  lemma SchemaListingIsCoherent(db: Database, p: DbPath, path: string, entry: FileInfo)
    requires Consistent(db) && WellNamed(db) && p.kind.Schema? && Structured(p)
    requires ListAt(db, p, path).Ok? && entry in ListAt(db, p, path).value
    ensures Coherent(db, p, ListAt(db, p, path).value, entry)
  {
    var schema := p.schema.value;
    var relations := db.listRelations(schema).value;
    var i := IndexIn(relation => RelationEntry(schema, relation), relations, entry);
    assert relations[i] in relations;
    assert ListsRelations(db, schema) && GoodRelations(db, schema);
    assert Knows(db, schema, relations[i].name);
    RelationEntryIsCoherent(db, p, schema, relations[i], ListAt(db, p, path).value);
  }

  lemma RelationEntryIsCoherent(db: Database, p: DbPath, schema: string, relation: RelationInfo, entries: seq<FileInfo>)
    requires Knows(db, schema, relation.name) && p.kind.Schema? && p.schema == Some(schema)
    requires IsComponent(schema) && GoodRelationName(relation.name)
    ensures Coherent(db, p, entries, RelationEntry(schema, relation))
  {
    RelationStands(db, p, schema, relation, entries);
    CoherentIfReadBack(db, p, RelationPath(schema, relation.name), entries, RelationEntry(schema, relation));
  }

  lemma RelationListingIsCoherent(db: Database, p: DbPath, path: string, entry: FileInfo)
    requires Consistent(db) && p.kind.Relation? && Structured(p)
    requires ListAt(db, p, path).Ok? && entry in ListAt(db, p, path).value
    ensures Coherent(db, p, ListAt(db, p, path).value, entry)
  {
    var entries := ListAt(db, p, path).value;
    var schema, relation := p.schema.value, p.relation.value;
    if entry.detail.OfDefinition? {
      DefinitionStands(db, p, schema, relation, entries);
      CoherentIfReadBack(db, p, DefinitionPath(schema, relation), entries, entry);
    } else {
      var facet := entry.detail.facet;
      FacetStands(db, p, schema, relation, facet, entries);
      CoherentIfReadBack(db, p, FacetPath(schema, relation, facet, None), entries, entry);
    }
  }

  lemma FacetListingIsCoherent(db: Database, p: DbPath, path: string, entry: FileInfo)
    requires WellNamed(db) && p.kind.Facet? && p.kind.item.None? && Structured(p)
    requires ListAt(db, p, path).Ok? && entry in ListAt(db, p, path).value
    ensures Coherent(db, p, ListAt(db, p, path).value, entry)
  {
    var schema, relation, facet := p.schema.value, p.relation.value, p.kind.facet;
    var item := FacetEntriesAreItems(db, schema, relation, facet, entry);
    var entries := ListAt(db, p, path).value;
    ItemStands(db, p, schema, relation, facet, entry, item, entries);
    CoherentIfReadBack(db, p, FacetPath(schema, relation, facet, Some(item)), entries, entry);
  }

  /** Every entry of every listing is coherent with it. */
  lemma ListingsAreCoherent(db: Database, path: string, entry: FileInfo)
    requires Consistent(db) && WellNamed(db)
    requires LsDb(db, path).Ok? && entry in LsDb(db, path).value
    ensures Coherent(db, Parse(path).value, LsDb(db, path).value, entry)
  {
    var p := Parse(path).value;
    ParsedPathsAreStructured(path);
    if p.kind.Root? {
      RootListingIsCoherent(db, p, path, entry);
    } else if p.kind.Schema? {
      SchemaListingIsCoherent(db, p, path, entry);
    } else if p.kind.Relation? {
      RelationListingIsCoherent(db, p, path, entry);
    } else {
      FacetListingIsCoherent(db, p, path, entry);
    }
  }

  // ------------------------------------------------------------------------------------------
  // Walks.

  ghost predicate Listed(db: Database, path: string, name: string) {
    LsDb(db, path).Ok? && exists entry <- LsDb(db, path).value :: entry.name == name
  }

  ghost predicate IsChain(step: (string, string) -> bool, names: seq<string>) {
    && names != []
    && var n := |names| - 1;
    if n == 0 then names[0] == "/" else IsChain(step, names[..n]) && step(names[n - 1], names[n])
  }

  /** Names, each listed under the one before, from the root down. */
  ghost predicate IsWalk(db: Database, names: seq<string>) {
    IsChain((path, name) => Listed(db, path, name), names)
  }

  ghost predicate AtDepth(path: string, depth: nat) {
    Parse(path).Ok? && |Components(Parse(path).value)| == depth
  }

  lemma ListedIsOneDeeper(db: Database, path: string, name: string, depth: nat)
    requires Consistent(db) && WellNamed(db) && Listed(db, path, name) && AtDepth(path, depth)
    ensures AtDepth(name, depth + 1)
  {
    var entry :| entry in LsDb(db, path).value && entry.name == name;
    ListingsAreCoherent(db, path, entry);
  }

  lemma RootDepth()
    ensures AtDepth("/", 0)
  {
    var root := DbPath(None, None, Root, []);
    BarePathRoundTrip(root);
    assert ToPath(root) == "/";
  }

  lemma DepthIsBounded(path: string, depth: nat)
    requires AtDepth(path, depth)
    ensures depth <= 4
  {
    AtMostFour(Parse(path).value);
  }

  lemma AtMostFour(p: DbPath)
    ensures |Components(p)| <= 4
  {
  }

  lemma {:induction false} WalkDescends(db: Database, names: seq<string>)
    requires Consistent(db) && WellNamed(db) && IsWalk(db, names)
    ensures AtDepth(names[|names| - 1], |names| - 1)
  {
    var n := |names| - 1;
    if n == 0 {
      RootDepth();
    } else {
      WalkDescends(db, names[..n]);
      assert Listed(db, names[n - 1], names[n]);
      ListedIsOneDeeper(db, names[n - 1], names[n], n - 1);
    }
  }

  /** A walk from the root ends at the fourth level at the latest. */
  lemma WalksAreShort(db: Database, names: seq<string>)
    requires Consistent(db) && WellNamed(db) && IsWalk(db, names)
    ensures |names| <= 5
  {
    WalkDescends(db, names);
    DepthIsBounded(names[|names| - 1], |names| - 1);
  }

  // ------------------------------------------------------------------------------------------
  // Names that are not fit for a path.

  lemma SameAfterSlash(a: string, b: string, x: string, y: string)
    requires '/' !in a && '/' !in x && "/" + (a + "/" + b) == "/" + (x + "/" + y)
    ensures a == x && b == y
  {
    var s, t := a + "/" + b, x + "/" + y;
    assert s == ("/" + s)[1..] == ("/" + t)[1..] == t;
    SamePrefix(a, b, x, y, '/');
  }

  lemma RelationText(schema: string, relation: string)
    ensures ToPath(RelationPath(schema, relation)) == "/" + (schema + "/" + relation)
  {
    var parts := [schema, relation];
    assert parts[1..] == [relation] && Join([relation], "/") == relation;
    Assoc(schema, "/", relation);
    assert Join(parts, "/") == schema + "/" + relation;
    assert Components(RelationPath(schema, relation)) == parts;
    EmptyLast(PathText(parts));
  }

  /** A relation whose printed path is read as a relation of that name was well named. */
  lemma ReadAsRelation(schema: string, relation: string, q: DbPath)
    requires IsComponent(schema) && Parse(ToPath(RelationPath(schema, relation))) == Ok(q)
    requires q.kind.Relation? && q.schema.Some? && q.relation.Some? && '/' !in q.schema.value
    requires ToPath(RelationPath(q.schema.value, q.relation.value)) == ToPath(RelationPath(schema, relation))
    ensures GoodRelationName(relation)
  {
    var own := RelationPath(schema, relation);
    RelationText(schema, relation);
    RelationText(q.schema.value, q.relation.value);
    SameAfterSlash(schema, relation, q.schema.value, q.relation.value);
    ParsedPathsAreStructured(ToPath(own));
    assert Structured(own);
    ReadWithoutQuery(own, q);
    assert q == own;
    BarePathRoundTrip(own);
  }

  lemma ReadWithoutQuery(own: DbPath, q: DbPath)
    requires Structured(own) && own.query == [] && Parse(ToPath(own)) == Ok(q)
    ensures q.query == []
  {
    PrintedPathSplits(own);
    ParseByParts(ToPath(own));
    var parts := PartsOf(PathText(Components(own)));
    if parts != [] {
      PartsGiveBackComponents(parts, [], ToPath(own));
    }
  }

  /** A schema is listed coherently exactly when its name is fit for a path. */
  lemma SchemaIsCoherentIff(db: Database, p: DbPath, schemas: seq<SchemaInfo>, schema: SchemaInfo)
    requires Consistent(db) && db.listSchemas == Ok(schemas) && schema in schemas && p.kind.Root?
    ensures Coherent(db, p, Map(SchemaEntry, schemas), SchemaEntry(schema)) <==> GoodName(schema.name)
  {
    var entries, entry, own := Map(SchemaEntry, schemas), SchemaEntry(schema), SchemaPath(schema.name);
    if GoodName(schema.name) {
      SchemaStands(db, p, schemas, schema);
      CoherentIfReadBack(db, p, own, entries, entry);
    } else if Coherent(db, p, entries, entry) {
      var q := Parse(entry.name).value;
      ParsedPathsAreStructured(entry.name);
      InfoOfOnePart(db, q);
      ReadAsSchema(schema.name, q);
      assert false;
    }
  }

  lemma InfoOfOnePart(db: Database, q: DbPath)
    requires Structured(q) && |Components(q)| == 1 && InfoAt(db, q).Ok?
    ensures q.kind.Schema? && InfoAt(db, q).value.name == ToPath(SchemaPath(q.schema.value))
  {
  }

  lemma ReadAsSchema(schema: string, q: DbPath)
    requires Parse(ToPath(SchemaPath(schema))) == Ok(q) && q.kind.Schema? && q.schema.Some?
    requires ToPath(SchemaPath(q.schema.value)) == ToPath(SchemaPath(schema))
    ensures GoodName(schema)
  {
    var own := SchemaPath(schema);
    SchemaText(schema);
    SchemaText(q.schema.value);
    assert schema == ("/" + schema)[1..] == ("/" + q.schema.value)[1..] == q.schema.value;
    ParsedPathsAreStructured(ToPath(own));
    assert Structured(own);
    ReadWithoutQuery(own, q);
    assert q == own;
    BarePathRoundTrip(own);
  }

  /**
    The components read of a relation's text are its schema and a name under which the database finds this very
    relation.
  */
  ghost predicate FoundAsItself(db: Database, schema: string, relation: string) {
    var parts := PartsRead(ToPath(RelationPath(schema, relation)));
    && |parts| == 2 && parts[0] == schema && SplitRelationFormat(parts[1]) == None
    && db.relationInfo(schema, parts[1]).Ok? && db.relationInfo(schema, parts[1]).value.name == relation
  }

  /**
    Whatever the name, and whatever names the database takes for one: a relation is listed coherently exactly
    when the name that is read of its text is no data file's and leads the database back to it.
  */
  lemma RelationIsCoherentIffFound(db: Database, p: DbPath, schema: string, relation: RelationInfo,
                                   entries: seq<FileInfo>)
    requires p == SchemaPath(schema) && IsComponent(schema)
    ensures Coherent(db, p, entries, RelationEntry(schema, relation)) <==> FoundAsItself(db, schema, relation.name)
  {
    var text := ToPath(RelationPath(schema, relation.name));
    var parts := PartsRead(text);
    if FoundAsItself(db, schema, relation.name) {
      ParseByRead(text, parts);
      FoundIsCoherent(db, p, schema, relation, entries, parts[1], SplitQuery(StripProtocol(text)).1);
    } else if Coherent(db, p, entries, RelationEntry(schema, relation)) {
      ParsedPathsKeepParts(text);
      ParsedPathsAreStructured(text);
      CoherentIsFound(db, schema, relation.name, Parse(text).value);
      assert false;
    }
  }

  lemma FoundIsCoherent(db: Database, p: DbPath, schema: string, relation: RelationInfo, entries: seq<FileInfo>,
                        x: string, query: seq<Pair>)
    requires p == SchemaPath(schema)
    requires Parse(ToPath(RelationPath(schema, relation.name))) == Ok(DbPath(Some(schema), Some(x), Relation, query))
    requires db.relationInfo(schema, x).Ok? && db.relationInfo(schema, x).value.name == relation.name
    ensures Coherent(db, p, entries, RelationEntry(schema, relation))
  {
    var q, entry := RelationPath(schema, x), RelationEntry(schema, relation);
    FoundStands(db, p, schema, relation, entries, x);
    StandsIgnoresQuery(db, p, q, query, entries, entry);
    CoherentIsStands(db, p, q.(query := query), entries, entry);
  }

  lemma CoherentIsFound(db: Database, schema: string, relation: string, q: DbPath)
    requires Structured(q) && Components(q) == PartsRead(ToPath(RelationPath(schema, relation)))
    requires IsComponent(schema) && OneBelow(SchemaPath(schema), q) && InfoAt(db, q).Ok?
    requires InfoAt(db, q).value.fileType.Directory?
    requires InfoAt(db, q).value.name == ToPath(RelationPath(schema, relation))
    ensures FoundAsItself(db, schema, relation)
  {
    var parts := Components(q);
    assert parts[..1] == [schema] && parts[0] == parts[..1][0];
    TwoPartsFound(db, q);
    var found := db.relationInfo(schema, parts[1]).value.name;
    RelationText(schema, relation);
    RelationText(schema, found);
    SameAfterSlash(schema, relation, schema, found);
  }

  lemma TwoPartsFound(db: Database, q: DbPath)
    requires Structured(q) && |Components(q)| == 2 && InfoAt(db, q).Ok? && InfoAt(db, q).value.fileType.Directory?
    ensures var parts := Components(q);
            && SplitRelationFormat(parts[1]) == None && db.relationInfo(parts[0], parts[1]).Ok?
            && InfoAt(db, q).value.name
                 == ToPath(RelationPath(parts[0], db.relationInfo(parts[0], parts[1]).value.name))
  {
  }

  /** A relation is listed coherently exactly when its name is fit for a path and has no format's ending. */
  lemma RelationIsCoherentIff(db: Database, p: DbPath, schema: string, relation: RelationInfo, entries: seq<FileInfo>)
    requires AnswersByName(db) && db.relationInfo(schema, relation.name).Ok?
    requires p == SchemaPath(schema) && IsComponent(schema)
    ensures Coherent(db, p, entries, RelationEntry(schema, relation)) <==> GoodRelationName(relation.name)
  {
    var entry := RelationEntry(schema, relation);
    if GoodRelationName(relation.name) {
      RelationEntryIsCoherent(db, p, schema, relation, entries);
    } else if Coherent(db, p, entries, entry) {
      LookedUpRelationIsGood(db, schema, relation.name, Parse(entry.name).value);
      assert false;
    }
  }

  lemma LookedUpRelationIsGood(db: Database, schema: string, relation: string, q: DbPath)
    requires AnswersByName(db) && IsComponent(schema)
    requires Parse(ToPath(RelationPath(schema, relation))) == Ok(q) && |Components(q)| == 2 && InfoAt(db, q).Ok?
    requires InfoAt(db, q).value.fileType.Directory?
    requires InfoAt(db, q).value.name == ToPath(RelationPath(schema, relation))
    ensures GoodRelationName(relation)
  {
    ParsedPathsAreStructured(ToPath(RelationPath(schema, relation)));
    InfoOfTwoParts(db, q);
    ReadAsRelation(schema, relation, q);
  }

  /** A path of two components is a relation, known as a directory under its own name, or a data file. */
  lemma InfoOfTwoParts(db: Database, q: DbPath)
    requires Structured(q) && |Components(q)| == 2 && AnswersByName(db) && InfoAt(db, q).Ok?
    ensures InfoAt(db, q).value.fileType.Directory? ==>
              q.kind.Relation? && InfoAt(db, q).value.name == ToPath(RelationPath(q.schema.value, q.relation.value))
  {
  }

  /** Looking a listed relation up gives the very entry that was listed exactly when the database says no more of it. */
  lemma RelationEntryIsItsInfoIff(db: Database, schema: string, relation: RelationInfo)
    requires Knows(db, schema, relation.name) && IsComponent(schema) && GoodRelationName(relation.name)
    ensures InfoDb(db, RelationEntry(schema, relation).name)
            == Ok(RelationEntry(schema, db.relationInfo(schema, relation.name).value))
    ensures InfoDb(db, RelationEntry(schema, relation).name) == Ok(RelationEntry(schema, relation))
            <==> db.relationInfo(schema, relation.name) == Ok(relation)
  {
    LookedUpRelation(db, schema, relation.name);
    SameRelationEntryIff(schema, relation, db.relationInfo(schema, relation.name).value);
  }

  lemma SameRelationEntryIff(schema: string, a: RelationInfo, b: RelationInfo)
    ensures RelationEntry(schema, a) == RelationEntry(schema, b) <==> a == b
  {
    assert RelationEntry(schema, a).detail == OfRelation(a) && RelationEntry(schema, b).detail == OfRelation(b);
  }

  lemma LookedUpRelation(db: Database, schema: string, relation: string)
    requires Knows(db, schema, relation) && IsComponent(schema) && GoodRelationName(relation)
    ensures InfoDb(db, ToPath(RelationPath(schema, relation)))
            == Ok(RelationEntry(schema, db.relationInfo(schema, relation).value))
  {
    RelationReads(schema, relation);
    InfoIsAt(db, ToPath(RelationPath(schema, relation)), RelationPath(schema, relation));
    InfoAtRelation(db, schema, relation);
  }

  lemma RelationReads(schema: string, relation: string)
    requires IsComponent(schema) && GoodRelationName(relation)
    ensures Parse(ToPath(RelationPath(schema, relation))) == Ok(RelationPath(schema, relation))
  {
    BarePathRoundTrip(RelationPath(schema, relation));
  }

  lemma InfoIsAt(db: Database, path: string, p: DbPath)
    requires Parse(path) == Ok(p)
    ensures InfoDb(db, path) == InfoAt(db, p)
  {
  }

  lemma InfoAtRelation(db: Database, schema: string, relation: string)
    requires Knows(db, schema, relation)
    ensures InfoAt(db, RelationPath(schema, relation))
            == Ok(RelationEntry(schema, db.relationInfo(schema, relation).value))
  {
  }

  /** How SQLite answers: a listing counts no rows, and looking a relation up counts those of a table only. */
  ghost predicate AnswersLikeSqlite(db: Database, schema: string, relation: RelationInfo, rows: nat) {
    && relation.rowCount == None
    && db.relationInfo(schema, relation.name)
         == Ok(relation.(rowCount := if relation.kind.Table? then Some(rows) else None))
  }

  /**
    So in SQLite the listed entry and the one looked up differ for every table, by the row count, and agree for
    every view.
  */
  lemma SqliteTableDiffersIff(db: Database, schema: string, relation: RelationInfo, rows: nat)
    requires AnswersLikeSqlite(db, schema, relation, rows) && IsComponent(schema) && GoodRelationName(relation.name)
    ensures InfoDb(db, RelationEntry(schema, relation).name) == Ok(RelationEntry(schema, relation))
            <==> relation.kind.View?
    ensures relation.kind.Table? ==>
              InfoDb(db, RelationEntry(schema, relation).name)
                == Ok(RelationEntry(schema, relation.(rowCount := Some(rows))))
  {
    RelationEntryIsItsInfoIff(db, schema, relation);
  }

  /**
    A relation named like a data file, such as `a.csv`, is listed as a directory; looked up, it is a file of
    another relation or nothing at all, and it never lists anything.
  */
  lemma FormatEndingBreaksListing(db: Database, schema: string, relation: RelationInfo)
    requires IsComponent(schema) && GoodName(relation.name) && SplitRelationFormat(relation.name).Some?
    ensures var entry := RelationEntry(schema, relation);
            && entry.fileType.Directory?
            && LsDb(db, entry.name) == Err(NotADirectory(entry.name))
            && (InfoDb(db, entry.name).Ok? ==> InfoDb(db, entry.name).value.fileType.File?)
  {
    var (name, format) := SplitRelationFormat(relation.name).value;
    ReadAsData(schema, relation.name, name, format);
    DataIsNoDirectory(db, DataPath(schema, name, format), RelationEntry(schema, relation).name);
  }

  lemma ReadAsData(schema: string, relation: string, name: string, format: DataFormat)
    requires IsComponent(schema) && GoodName(relation) && relation == name + "." + Extension(format)
    ensures Parse(ToPath(RelationPath(schema, relation))) == Ok(DataPath(schema, name, format))
  {
    var data := DataPath(schema, name, format);
    NameInRelation(name, ".", Extension(format));
    DataIsStructured(schema, name, format);
    BarePathRoundTrip(data);
    DataComponents(schema, name, format);
    SamePathText(data, RelationPath(schema, relation));
  }

  lemma DataIsStructured(schema: string, name: string, format: DataFormat)
    requires IsComponent(schema) && '/' !in name && '?' !in name
    ensures Structured(DataPath(schema, name, format)) && LastNameKept(DataPath(schema, name, format))
  {
  }

  lemma DataComponents(schema: string, name: string, format: DataFormat)
    ensures Components(DataPath(schema, name, format))
            == Components(RelationPath(schema, name + "." + Extension(format)))
  {
  }

  lemma NameInRelation(name: string, dot: string, extension: string)
    requires '/' !in name + dot + extension && '?' !in name + dot + extension
    ensures '/' !in name && '?' !in name
  {
    assert forall ch <- name :: ch in name + dot + extension;
  }

  lemma SamePathText(p: DbPath, q: DbPath)
    requires Components(p) == Components(q) && p.query == q.query
    ensures ToPath(p) == ToPath(q)
  {
  }

  lemma DataIsNoDirectory(db: Database, data: DbPath, path: string)
    requires data.kind.RelationData?
    ensures ListAt(db, data, path) == Err(NotADirectory(path))
    ensures InfoAt(db, data).Ok? ==> InfoAt(db, data).value.fileType.File?
  {
  }

  lemma {:induction false} LoopWalks(step: (string, string) -> bool, top: string, loop: string, n: nat)
    returns (names: seq<string>)
    requires step("/", top) && step(top, loop) && step(loop, loop)
    ensures IsChain(step, names) && |names| == n + 1
    ensures names[n] == if n == 0 then "/" else if n == 1 then top else loop
  {
    if n == 0 {
      names := ["/"];
    } else {
      var above := LoopWalks(step, top, loop, n - 1);
      names := above + [if n == 1 then top else loop];
      assert names[..n] == above;
    }
  }

  lemma EmptyNameWalksForever(db: Database, schema: string, n: nat) returns (names: seq<string>)
    requires GoodName(schema) && Listed(db, "/", ToPath(SchemaPath(schema))) && SchemaEntries(db, schema).Ok?
    requires HasEmptyName(db, schema)
    ensures IsWalk(db, names) && |names| == n + 1
  {
    var top := ToPath(SchemaPath(schema));
    ListsItself(db, schema, top);
    ListsItself(db, schema, top + "/");
    names := LoopWalks((path, name) => Listed(db, path, name), top, top + "/", n);
  }

  ghost predicate HasEmptyName(db: Database, schema: string) {
    db.listRelations(schema).Ok? && exists relation <- db.listRelations(schema).value :: relation.name == ""
  }

  lemma SchemaReads(schema: string)
    requires GoodName(schema)
    ensures Parse(ToPath(SchemaPath(schema))) == Parse(ToPath(SchemaPath(schema)) + "/") == Ok(SchemaPath(schema))
  {
    BarePathRoundTrip(SchemaPath(schema));
    TrailingSlashProtects(SchemaPath(schema));
  }

  lemma SchemaText(schema: string)
    ensures ToPath(SchemaPath(schema)) == "/" + schema
  {
    assert Join([schema], "/") == schema;
    EmptyLast("/" + schema);
  }

  lemma EmptyNameIsListed(db: Database, schema: string)
    requires SchemaEntries(db, schema).Ok? && HasEmptyName(db, schema)
    ensures exists entry <- SchemaEntries(db, schema).value :: entry.name == ToPath(SchemaPath(schema)) + "/"
  {
    var relations := db.listRelations(schema).value;
    var i :| 0 <= i < |relations| && relations[i].name == "";
    var entry := SchemaEntries(db, schema).value[i];
    assert entry == RelationEntry(schema, relations[i]);
    RelationText(schema, "");
    SchemaText(schema);
    EmptyLast(schema + "/");
    Assoc("/", schema, "/");
  }

  lemma ListsItself(db: Database, schema: string, path: string)
    requires GoodName(schema) && SchemaEntries(db, schema).Ok? && HasEmptyName(db, schema)
    requires path == ToPath(SchemaPath(schema)) || path == ToPath(SchemaPath(schema)) + "/"
    ensures Listed(db, path, ToPath(SchemaPath(schema)) + "/")
  {
    SchemaReads(schema);
    EmptyNameIsListed(db, schema);
    ListedAt(db, path, SchemaPath(schema), ToPath(SchemaPath(schema)) + "/");
  }

  lemma ListedAt(db: Database, path: string, p: DbPath, name: string)
    requires Parse(path) == Ok(p) && ListAt(db, p, path).Ok?
    requires exists entry <- ListAt(db, p, path).value :: entry.name == name
    ensures Listed(db, path, name)
  {
  }

  // ------------------------------------------------------------------------------------------
  // The bound is reached.

  /** One schema with one empty table with one column, answering as SQLite does; the names are parameters. */
  function OneColumn(schema: string, table: string, column: string): Database {
    Database(
      Ok([SchemaInfo(schema, "")]),
      s => if s == schema then Ok([RelationInfo(table, Table, None, "")]) else Err(NotFound(s)),
      (s, r) => if s == schema && r == table then Ok(RelationInfo(table, Table, Some(0), "")) else Err(NotFound(r)),
      (facet, s, r) =>
        if s == schema && r == table then Ok(if facet == Columns then [Item(column, "")] else []) else Err(NotFound(r)),
      (s, r) => Err(NotFound(r)),
      definition => [])
  }

  lemma OneColumnIsFit(schema: string, table: string, column: string)
    requires GoodName(schema) && GoodRelationName(table) && GoodName(column)
    ensures Consistent(OneColumn(schema, table, column)) && WellNamed(OneColumn(schema, table, column))
    ensures AnswersByName(OneColumn(schema, table, column))
    ensures AnswersLikeSqlite(OneColumn(schema, table, column), schema, RelationInfo(table, Table, None, ""), 0)
  {
    var db := OneColumn(schema, table, column);
    assert ListsRelations(db, schema) by {
      assert db.listRelations(schema).value == [RelationInfo(table, Table, None, "")];
    }
    forall s, r ensures Describes(db, s, r) && GoodTargets(db, s, r) {}
    forall s ensures GoodRelations(db, s) {}
    forall facet, s, r ensures GoodItems(db, facet, s, r) {}
  }

  lemma ListedUnder(db: Database, p: DbPath, entry: FileInfo, name: string)
    requires p.query == [] && Structured(p) && LastNameKept(p)
    requires ListAt(db, p, ToPath(p)).Ok? && entry in ListAt(db, p, ToPath(p)).value && entry.name == name
    ensures Listed(db, ToPath(p), name)
  {
    BarePathRoundTrip(p);
    ListedAt(db, ToPath(p), p, name);
  }

  lemma ChainSnoc(step: (string, string) -> bool, names: seq<string>, name: string)
    requires IsChain(step, names) && step(names[|names| - 1], name)
    ensures IsChain(step, names + [name])
  {
    assert (names + [name])[..|names|] == names;
  }

  lemma ChainOfFive(step: (string, string) -> bool, a: string, b: string, c: string, d: string)
    returns (names: seq<string>)
    requires step("/", a) && step(a, b) && step(b, c) && step(c, d)
    ensures IsChain(step, names) && |names| == 5
  {
    names := ["/"];
    ChainSnoc(step, names, a);
    names := names + [a];
    ChainSnoc(step, names, b);
    names := names + [b];
    ChainSnoc(step, names, c);
    names := names + [c];
    ChainSnoc(step, names, d);
    names := names + [d];
  }

  /** A walk of five names, from the root to a column. */
  lemma FourLevelsAreReached(schema: string, table: string, column: string) returns (names: seq<string>)
    requires GoodName(schema) && GoodRelationName(table) && GoodName(column)
    ensures IsWalk(OneColumn(schema, table, column), names) && |names| == 5
  {
    var db := OneColumn(schema, table, column);
    FirstLevels(db, schema, table, column);
    LastLevels(db, schema, table, column);
    names := ChainOfFive((path, name) => Listed(db, path, name),
                         ToPath(SchemaPath(schema)), ToPath(RelationPath(schema, table)),
                         ToPath(FacetPath(schema, table, Columns, None)),
                         ToPath(FacetPath(schema, table, Columns, Some(column))));
  }

  lemma FirstLevels(db: Database, schema: string, table: string, column: string)
    requires db == OneColumn(schema, table, column) && GoodName(schema) && GoodRelationName(table)
    ensures Listed(db, "/", ToPath(SchemaPath(schema)))
    ensures Listed(db, ToPath(SchemaPath(schema)), ToPath(RelationPath(schema, table)))
  {
    var entry, relation := SchemaEntry(SchemaInfo(schema, "")), RelationInfo(table, Table, None, "");
    assert Map(SchemaEntry, [SchemaInfo(schema, "")]) == [entry];
    assert ToPath(DbPath(None, None, Root, [])) == "/";
    ListedUnder(db, DbPath(None, None, Root, []), entry, entry.name);
    assert EnsureSchema(db, schema).Ok?;
    var listed := SchemaEntries(db, schema).value;
    assert listed[0] == RelationEntry(schema, relation);
    ListedUnder(db, SchemaPath(schema), listed[0], ToPath(RelationPath(schema, table)));
  }

  lemma LastLevels(db: Database, schema: string, table: string, column: string)
    requires db == OneColumn(schema, table, column) && GoodName(schema) && GoodRelationName(table)
    ensures Listed(db, ToPath(RelationPath(schema, table)), ToPath(FacetPath(schema, table, Columns, None)))
    ensures Listed(db, ToPath(FacetPath(schema, table, Columns, None)),
                   ToPath(FacetPath(schema, table, Columns, Some(column))))
  {
    var entry := FacetEntry(schema, table, Columns);
    ListedUnder(db, RelationPath(schema, table), entry, entry.name);
    var listed := FacetEntries(db, schema, table, Columns).value;
    assert listed[0] == ItemEntry(schema, table, Columns, Item(column, ""));
    ListedUnder(db, FacetPath(schema, table, Columns, None), listed[0], listed[0].name);
  }
}
