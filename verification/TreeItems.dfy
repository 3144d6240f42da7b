/**
  Which files of a facet directory are listed coherently: columns, indexes, constraints and view targets, whatever
  slashes and spaces their names hold.
*/
module TreeItems {
  import opened Wrappers
  import opened Text
  import opened QueryText
  import opened Paths
  import opened Tree

  /** The files of a facet, by the names of their items. */
  ghost predicate AreItemFiles(schema: string, relation: string, facet: DbFacet, names: seq<string>,
                               entries: seq<FileInfo>)
  {
    |entries| == |names| && forall i :: 0 <= i < |names| ==> IsItemFile(schema, relation, facet, names[i], entries[i])
  }

  ghost predicate IsItemFile(schema: string, relation: string, facet: DbFacet, name: string, entry: FileInfo) {
    && entry.name == ItemText(schema, relation, facet, name) && entry.fileType.File?
    && (entry.detail.OfItem? || entry.detail.OfTarget?)
  }

  function ItemText(schema: string, relation: string, facet: DbFacet, item: string): string {
    PathText([schema, relation, FacetName(facet)]) + ("/" + item)
  }

  function TargetName(schema: string, dependency: string): string {
    Target(schema, dependency).1
  }

  function TargetNames(schema: string, dependencies: seq<string>): seq<string> {
    Map(dependency => TargetName(schema, dependency), dependencies)
  }

  /** The names of a facet's items. */
  function ItemNames(db: Database, schema: string, relation: string, facet: DbFacet): seq<string>
    requires FacetEntries(db, schema, relation, facet).Ok?
  {
    if facet.DependsOn? then
      if db.relationInfo(schema, relation).value.kind.View? then
        TargetNames(schema, Dependencies(db, relation, db.viewDefinition(schema, relation).value))
      else []
    else Map((item: Item) => item.name, db.listItems(facet, schema, relation).value)
  }

  lemma ItemPathText(schema: string, relation: string, facet: DbFacet, item: string)
    ensures ToPath(FacetPath(schema, relation, facet, Some(item))) == ItemText(schema, relation, facet, item)
  {
    var above := [schema, relation, FacetName(facet)];
    JoinSnoc(above, item, "/");
    Assoc("/", Join(above, "/") + "/", item);
    Assoc("/", Join(above, "/"), "/");
    Assoc(PathText(above), "/", item);
    assert Components(FacetPath(schema, relation, facet, Some(item))) == above + [item];
    EmptyLast(PathText(above + [item]));
  }

  lemma FacetHoldsItemFiles(db: Database, schema: string, relation: string, facet: DbFacet)
    requires FacetEntries(db, schema, relation, facet).Ok?
    ensures AreItemFiles(schema, relation, facet, ItemNames(db, schema, relation, facet),
                         FacetEntries(db, schema, relation, facet).value)
  {
    if facet.DependsOn? {
      TargetsAreItemFiles(db, schema, relation, facet);
    } else {
      ListedAreItemFiles(db, schema, relation, facet);
    }
  }

  lemma ListedAreItemFiles(db: Database, schema: string, relation: string, facet: DbFacet)
    requires FacetEntries(db, schema, relation, facet).Ok? && !facet.DependsOn?
    ensures AreItemFiles(schema, relation, facet, ItemNames(db, schema, relation, facet),
                         FacetEntries(db, schema, relation, facet).value)
  {
    var items, entries := db.listItems(facet, schema, relation).value, FacetEntries(db, schema, relation, facet).value;
    forall i | 0 <= i < |items| ensures IsItemFile(schema, relation, facet, items[i].name, entries[i]) {
      assert entries[i] == ItemEntry(schema, relation, facet, items[i]);
      ItemPathText(schema, relation, facet, items[i].name);
    }
  }

  lemma TargetsAreItemFiles(db: Database, schema: string, relation: string, facet: DbFacet)
    requires FacetEntries(db, schema, relation, facet).Ok? && facet.DependsOn?
    ensures AreItemFiles(schema, relation, facet, ItemNames(db, schema, relation, facet),
                         FacetEntries(db, schema, relation, facet).value)
  {
    if db.relationInfo(schema, relation).value.kind.View? {
      var dependencies := Dependencies(db, relation, db.viewDefinition(schema, relation).value);
      TargetEntriesAreFiles(schema, relation, facet, dependencies);
    }
  }

  lemma TargetEntriesAreFiles(schema: string, relation: string, facet: DbFacet, dependencies: seq<string>)
    requires facet.DependsOn?
    ensures AreItemFiles(schema, relation, facet, TargetNames(schema, dependencies),
                         TargetEntries(schema, relation, dependencies))
  {
    var names, entries := TargetNames(schema, dependencies), TargetEntries(schema, relation, dependencies);
    forall i | 0 <= i < |dependencies| ensures IsItemFile(schema, relation, facet, names[i], entries[i]) {
      TargetIsFile(schema, relation, facet, dependencies[i], names[i], entries[i]);
    }
  }

  lemma TargetIsFile(schema: string, relation: string, facet: DbFacet, dependency: string, name: string,
                     entry: FileInfo)
    requires facet.DependsOn? && name == TargetName(schema, dependency)
    requires entry == TargetEntry(schema, relation, dependency)
    ensures IsItemFile(schema, relation, facet, name, entry)
  {
    ItemPathText(schema, relation, facet, name);
  }

  // ------------------------------------------------------------------------------------------
  // Reading the text of an item.

  /** The non-empty components of an item's name, as the path parser will see them. */
  function ItemParts(item: string): seq<string> {
    NonEmptyParts(Split(TrimEnd(item), '/'))
  }

  lemma {:induction false} TrimEndConcat(a: string, b: string)
    requires a != [] && !EndsWithSpace(a)
    ensures TrimEnd(a + b) == a + TrimEnd(b)
  {
    if b == [] {
      EmptyLast(a);
    } else if EndsWithSpace(b) {
      assert (a + b)[..|a + b| - 1] == a + b[..|b| - 1];
      TrimEndConcat(a, b[..|b| - 1]);
    }
  }

  lemma {:induction false} NonEmptyPartsConcat(a: seq<string>, b: seq<string>)
    ensures NonEmptyParts(a + b) == NonEmptyParts(a) + NonEmptyParts(b)
  {
    if a == [] {
      EmptyFirst(b);
    } else {
      assert (a + b)[1..] == a[1..] + b;
      NonEmptyPartsConcat(a[1..], b);
    }
  }

  /** Below a directory, the parser sees the components of the directory and then those of the item. */
  lemma PartsBelow(above: seq<string>, item: string)
    requires AreComponents(above)
    ensures PartsOf(PathText(above) + ("/" + item)) == above + ItemParts(item)
  {
    var base := PathText(above);
    var text := base + ("/" + item);
    assert !IsSpace('/');
    assert text[0] == '/';
    Assoc(base, "/", item);
    TrimEndConcat(base + "/", item);
    assert Trim(text) == base + ['/'] + TrimEnd(item);
    SplitConcat(base, '/', TrimEnd(item));
    NonEmptyPartsConcat(Split(base, '/'), Split(TrimEnd(item), '/'));
    PathTextSplits(above);
  }

  /** Below a directory, a `://` can only be in the item's name. */
  lemma SchemeBelow(above: seq<string>, item: string)
    requires AreComponents(above) && above != [] && ':' !in above[|above| - 1]
    ensures FindScheme(PathText(above) + ("/" + item)) == FindScheme(item)
  {
    var base := PathText(above);
    PathTextHasNoDoubleSlash(above);
    LastOfText(above);
    Assoc(base, "/", item);
    forall i | 0 <= i < |base + "/"| ensures !SchemeAt((base + "/") + item, i) {
      NoSchemeAtStart(base, item, i);
    }
    FindSchemeBehind(base + "/", item);
  }

  lemma NoSchemeAtStart(base: string, item: string, i: nat)
    requires NoDoubleSlash(base) && base != [] && base[|base| - 1] != '/' && base[|base| - 1] != ':' && i <= |base|
    ensures !SchemeAt((base + "/") + item, i)
  {
    var text := (base + "/") + item;
    if i == |base| {
      assert text[i] == '/';
    } else if i == |base| - 1 {
      assert text[i] == base[|base| - 1];
    } else if i == |base| - 2 {
      assert text[i + 1] == base[|base| - 1];
    } else {
      assert text[i + 1] == base[i + 1] && text[i + 2] == base[i + 1 + 1];
    }
  }

  lemma PathPartBelow(base: string, item: string)
    requires '?' !in base
    ensures PathPart(base + ("/" + item)) == base + ("/" + PathPart(item))
  {
    match SplitOnce(item, '?')
    case None =>
    case Some((before, rest)) =>
      assert base + ("/" + item) == (base + ("/" + before)) + ['?'] + rest;
      FirstSplit(base + ("/" + before), '?', rest);
  }

  lemma {:induction false} LastOfText(above: seq<string>)
    requires AreComponents(above) && above != []
    ensures var last := above[|above| - 1];
            last != [] && PathText(above)[|PathText(above)| - 1] == last[|last| - 1] != '/'
  {
    assert above[0] in above;
    if |above| > 1 {
      assert PathText(above) == "/" + above[0] + PathText(above[1..]);
      LastOfText(above[1..]);
    }
  }

  /**
    The components that the parser sees in an item's text: behind a `://` in the name, those of what follows it;
    otherwise those of the directory and of the name, up to a `?`.
  */
  function ReadAs(schema: string, relation: string, facet: DbFacet, item: string): seq<string> {
    match FindScheme(item)
    case Some(rest) => PartsOf(PathPart(rest))
    case None => [schema, relation, FacetName(facet)] + ItemParts(PathPart(item))
  }

  lemma ItemTextReads(schema: string, relation: string, facet: DbFacet, item: string)
    requires IsComponent(schema) && IsComponent(relation)
    ensures PartsRead(ItemText(schema, relation, facet, item)) == ReadAs(schema, relation, facet, item)
  {
    var above := [schema, relation, FacetName(facet)];
    PathTextHasNoDoubleSlash(above);
    assert ':' !in FacetName(facet);
    SchemeBelow(above, item);
    if FindScheme(item).None? {
      PathPartBelow(PathText(above), item);
      PartsBelow(above, PathPart(item));
    }
  }

  /** One component below the facet makes an item of it. */
  lemma ItemFromParts(schema: string, relation: string, facet: DbFacet, x: string, query: seq<Pair>, text: string)
    ensures FromParts([schema, relation, FacetName(facet), x], query, text)
            == Ok(FacetPath(schema, relation, facet, Some(x)).(query := query))
  {
    NamesReadBack(Csv, facet);
  }

  // ------------------------------------------------------------------------------------------
  // Finding the item.

  lemma LastNameBelow(base: string, item: string)
    ensures LastName(base + ("/" + item)) == LastName(item)
  {
    match RSplitOnce(item, '/')
    case None =>
      assert base + ("/" + item) == base + ['/'] + item;
      LastSplit(base, '/', item);
    case Some((a, b)) =>
      assert base + ("/" + item) == (base + "/" + a) + ['/'] + b;
      LastSplit(base + "/" + a, '/', b);
  }

  /** The entry found is the one of the first item whose last component is the name looked for. */
  lemma {:induction false} FindByName(base: string, names: seq<string>, entries: seq<FileInfo>, x: string)
    requires |entries| == |names| && forall i :: 0 <= i < |names| ==> entries[i].name == base + ("/" + names[i])
    ensures var entry := Find((entry: FileInfo) => LastName(entry.name) == x, entries);
            var name := Find((name: string) => LastName(name) == x, names);
            (entry.Some? <==> name.Some?) && (entry.Some? ==> entry.value.name == base + ("/" + name.value))
  {
    if names != [] {
      LastNameBelow(base, names[0]);
      FindByName(base, names[1..], entries[1..], x);
    }
  }

  /** What is found by this name among these: the first item with the same last component is the item itself. */
  predicate FindsItself(names: seq<string>, item: string) {
    Find((name: string) => LastName(name) == LastName(item), names) == Some(item)
  }

  /** All that a caller needs to know of a name to tell whether its file is listed coherently. */
  predicate GoodItemName(schema: string, relation: string, facet: DbFacet, names: seq<string>, item: string) {
    && ReadAs(schema, relation, facet, item) == [schema, relation, FacetName(facet), LastName(item)]
    && FindsItself(names, item)
  }

  /** Where no `?` and no `://` is in the name, it has to be one component behind any slashes. */
  lemma PlainItemNameIff(schema: string, relation: string, facet: DbFacet, names: seq<string>, item: string)
    requires '?' !in item && FindScheme(item).None?
    ensures GoodItemName(schema, relation, facet, names, item)
            <==> ItemParts(item) == [LastName(item)] && FindsItself(names, item)
  {
    var above := [schema, relation, FacetName(facet)];
    assert PathPart(item) == item;
    assert (above + ItemParts(item))[|above|..] == ItemParts(item);
    assert above + [LastName(item)] == [schema, relation, FacetName(facet), LastName(item)];
  }

  /** A name with a `?` behind its last slash never is one. */
  lemma QuestionMarkIsBad(schema: string, relation: string, facet: DbFacet, names: seq<string>, item: string)
    requires IsComponent(schema) && IsComponent(relation) && '?' in LastName(item)
    ensures !GoodItemName(schema, relation, facet, names, item)
  {
    var text := ItemText(schema, relation, facet, item);
    ItemTextReads(schema, relation, facet, item);
    PartsAreComponents(PathPart(StripProtocol(text)));
    var parts := PartsRead(text);
    if |parts| == 4 {
      assert parts[3] in parts;
    }
  }

  lemma SameBelow(base: string, a: string, b: string)
    ensures base + ("/" + a) == base + ("/" + b) <==> a == b
  {
    assert a == (base + ("/" + a))[|base| + 1..] && b == (base + ("/" + b))[|base| + 1..];
  }

  /** Whether an item that was found on its way is the one it was listed as. */
  lemma FoundIsItselfIff(schema: string, relation: string, facet: DbFacet, names: seq<string>, entries: seq<FileInfo>,
                         item: string, x: string)
    requires AreItemFiles(schema, relation, facet, names, entries) && item in names
    ensures var found := Find((entry: FileInfo) => LastName(entry.name) == x, entries);
            found.Some? && found.value.name == ItemText(schema, relation, facet, item)
            <==> x == LastName(item) && FindsItself(names, item)
  {
    var base := PathText([schema, relation, FacetName(facet)]);
    assert forall i :: 0 <= i < |names| ==> IsItemFile(schema, relation, facet, names[i], entries[i]);
    FindByName(base, names, entries, x);
    LastNameBelow(base, item);
    var name := Find((name: string) => LastName(name) == x, names);
    if name.Some? {
      SameBelow(base, name.value, item);
    }
  }

  /** What is looked up at the path of an item, and whether it is the entry it should be. */
  lemma ItemStandsIff(db: Database, p: DbPath, schema: string, relation: string, facet: DbFacet, entries: seq<FileInfo>,
                      entry: FileInfo, x: string)
    requires p == FacetPath(schema, relation, facet, None) && FacetEntries(db, schema, relation, facet) == Ok(entries)
    requires entry.fileType.File? && (entry.detail.OfItem? || entry.detail.OfTarget?)
    requires forall e <- entries :: e.fileType.File?
    ensures var found := Find((e: FileInfo) => LastName(e.name) == x, entries);
            Stands(db, p, FacetPath(schema, relation, facet, Some(x)), entries, entry)
            <==> found.Some? && found.value.name == entry.name
  {
    var found := Find((e: FileInfo) => LastName(e.name) == x, entries);
    FacetItemInfoIs(db, schema, relation, facet, entries, x);
    if found.Some? {
      FileStands(db, p, schema, relation, facet, x, entries, entry, found.value);
    }
  }

  lemma FacetItemInfoIs(db: Database, schema: string, relation: string, facet: DbFacet, entries: seq<FileInfo>,
                        x: string)
    requires FacetEntries(db, schema, relation, facet) == Ok(entries)
    ensures var found := Find((e: FileInfo) => LastName(e.name) == x, entries);
            FacetItemInfo(db, schema, relation, facet, x) == (if found.Some? then Ok(found.value) else Err(NotFound(x)))
  {
  }

  /**
    A file of a facet is listed coherently exactly when the components read of its text are those of the facet and
    the last component of its name, and it is the first of its facet to end in that.
  */
  lemma ItemIsCoherentIff(db: Database, schema: string, relation: string, facet: DbFacet, i: nat)
    requires IsComponent(schema) && IsComponent(relation) && FacetEntries(db, schema, relation, facet).Ok?
    requires i < |ItemNames(db, schema, relation, facet)|
    ensures |FacetEntries(db, schema, relation, facet).value| == |ItemNames(db, schema, relation, facet)|
    ensures var names := ItemNames(db, schema, relation, facet);
            var entries := FacetEntries(db, schema, relation, facet).value;
            Coherent(db, FacetPath(schema, relation, facet, None), entries, entries[i])
            <==> GoodItemName(schema, relation, facet, names, names[i])
  {
    var names, entries := ItemNames(db, schema, relation, facet), FacetEntries(db, schema, relation, facet).value;
    FacetHoldsItemFiles(db, schema, relation, facet);
    assert IsItemFile(schema, relation, facet, names[i], entries[i]);
    ItemTextReads(schema, relation, facet, names[i]);
    EntryIsCoherentIff(db, schema, relation, facet, names, entries, names[i], entries[i],
                       ReadAs(schema, relation, facet, names[i]));
  }

  lemma EntryIsCoherentIff(db: Database, schema: string, relation: string, facet: DbFacet, names: seq<string>,
                           entries: seq<FileInfo>, item: string, entry: FileInfo, parts: seq<string>)
    requires IsComponent(schema) && IsComponent(relation) && FacetEntries(db, schema, relation, facet) == Ok(entries)
    requires AreItemFiles(schema, relation, facet, names, entries) && item in names
    requires IsItemFile(schema, relation, facet, item, entry) && parts == PartsRead(entry.name)
    ensures Coherent(db, FacetPath(schema, relation, facet, None), entries, entry)
            <==> parts == [schema, relation, FacetName(facet), LastName(item)] && FindsItself(names, item)
  {
    var above := [schema, relation, FacetName(facet)];
    if IsOneBelow(above, parts) {
      IsOneBelowIs(above, parts);
      OneBelowIsCoherentIff(db, schema, relation, facet, names, entries, item, entry, parts[3]);
      SameEnd(above, parts[3], LastName(item));
    } else {
      OneBelowIsRead(db, schema, relation, facet, entries, entry);
      NotOneBelow(above, parts, LastName(item));
    }
  }

  lemma IsOneBelowIs(above: seq<string>, parts: seq<string>)
    requires |above| == 3 && IsOneBelow(above, parts)
    ensures |parts| == 4 && parts == [above[0], above[1], above[2], parts[3]]
  {
  }

  lemma SameEnd(above: seq<string>, x: string, y: string)
    requires |above| == 3
    ensures [above[0], above[1], above[2], x] == [above[0], above[1], above[2], y] <==> x == y
  {
    assert [above[0], above[1], above[2], x][3] == x;
  }

  lemma NotOneBelow(above: seq<string>, parts: seq<string>, last: string)
    requires |above| == 3 && !IsOneBelow(above, parts)
    ensures parts != [above[0], above[1], above[2], last]
  {
  }

  predicate IsOneBelow(above: seq<string>, parts: seq<string>)
    requires |above| == 3
  {
    |parts| == 4 && parts == [above[0], above[1], above[2], parts[3]]
  }

  lemma OneBelowIsRead(db: Database, schema: string, relation: string, facet: DbFacet, entries: seq<FileInfo>,
                       entry: FileInfo)
    ensures Coherent(db, FacetPath(schema, relation, facet, None), entries, entry)
            ==> IsOneBelow([schema, relation, FacetName(facet)], PartsRead(entry.name))
  {
    if Coherent(db, FacetPath(schema, relation, facet, None), entries, entry) {
      CoherentIsBelow(db, FacetPath(schema, relation, facet, None), entries, entry);
      BelowFacet(schema, relation, facet, Parse(entry.name).value);
    }
  }

  lemma CoherentIsBelow(db: Database, p: DbPath, entries: seq<FileInfo>, entry: FileInfo)
    requires Coherent(db, p, entries, entry)
    ensures Parse(entry.name).Ok? && OneBelow(p, Parse(entry.name).value)
    ensures Components(Parse(entry.name).value) == PartsRead(entry.name)
  {
    ParsedPathsKeepParts(entry.name);
  }

  lemma BelowFacet(schema: string, relation: string, facet: DbFacet, q: DbPath)
    requires OneBelow(FacetPath(schema, relation, facet, None), q)
    ensures IsOneBelow([schema, relation, FacetName(facet)], Components(q))
  {
    var above := [schema, relation, FacetName(facet)];
    assert Components(FacetPath(schema, relation, facet, None)) == above;
    FourParts(above, Components(q));
  }

  lemma FourParts(above: seq<string>, parts: seq<string>)
    requires |above| == 3 && |parts| == 4 && parts[..3] == above
    ensures parts == [above[0], above[1], above[2], parts[3]]
  {
  }

  lemma OneBelowIsCoherentIff(db: Database, schema: string, relation: string, facet: DbFacet, names: seq<string>,
                              entries: seq<FileInfo>, item: string, entry: FileInfo, x: string)
    requires FacetEntries(db, schema, relation, facet) == Ok(entries)
    requires AreItemFiles(schema, relation, facet, names, entries) && item in names
    requires IsItemFile(schema, relation, facet, item, entry)
    requires PartsRead(entry.name) == [schema, relation, FacetName(facet), x]
    ensures Coherent(db, FacetPath(schema, relation, facet, None), entries, entry)
            <==> x == LastName(item) && FindsItself(names, item)
  {
    var p, q := FacetPath(schema, relation, facet, None), FacetPath(schema, relation, facet, Some(x));
    var query := SplitQuery(StripProtocol(entry.name)).1;
    ParseByRead(entry.name, PartsRead(entry.name));
    ItemFromParts(schema, relation, facet, x, query, entry.name);
    CoherentIsStands(db, p, q.(query := query), entries, entry);
    StandsIgnoresQuery(db, p, q, query, entries, entry);
    AllAreFiles(schema, relation, facet, names, entries);
    ItemStandsIff(db, p, schema, relation, facet, entries, entry, x);
    FoundIsItselfIff(schema, relation, facet, names, entries, item, x);
  }

  lemma AllAreFiles(schema: string, relation: string, facet: DbFacet, names: seq<string>, entries: seq<FileInfo>)
    requires AreItemFiles(schema, relation, facet, names, entries)
    ensures forall e <- entries :: e.fileType.File?
  {
    forall e <- entries ensures e.fileType.File? {
      var i :| 0 <= i < |entries| && entries[i] == e;
      assert IsItemFile(schema, relation, facet, names[i], entries[i]);
    }
  }
}
