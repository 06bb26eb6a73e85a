# PyroCMS module registry, modelled in Dafny

PyroCMS keeps one row per installed module in the `modules` table. The
model `Modules_m` (`application/modules/modules/models/modules_m.php`) owns
that table, and it does five kinds of work:

- it reads a module back as an array (`get`), resolving its localized name
  and description for the active language with an English fallback;
- it lists modules through a set of filters (`get_modules`);
- it answers questions about a module's controllers;
- it inserts, updates, deletes, enables and disables rows;
- it installs and uninstalls third-party modules and rebuilds the whole
  table from the module directories on disk (`import_all`). Installing and
  uninstalling run the SQL script in the module's `details.xml` manifest,
  one statement per `-- command split --` segment that is not empty once
  trimmed.

The project models all of this.

- `option.dfy` (`Optional`): the option type.
- `php_string.dfy` (`PhpString`): the PHP built-ins the scripts go through:
  `trim` with its default character set, `empty` on strings (true for `""`
  and `"0"`), and `explode`. The source never calls `implode`: `Join`
  models it only as the inverse of `explode`, for the round-trip proofs.
- `locale.dfy` (`Locale`): the language lookup with its `en` fallback.
- `manifest.dfy` (`Manifest`): the descriptor `_parse_xml` builds from an
  already-read manifest tree. The controllers table is an ordered PHP
  array, and a repeated key keeps its first position but takes the last
  value.
- `script.dfy` (`Script`): how an install or uninstall script becomes the
  statements sent to the database.
- `registry.dfy` (`Registry`): the table rows, and the pure operations on
  the table:
  - the read-side operations (`get`, `exists`, the two controller queries
    and the `get_modules` selection);
  - the table changes the store makes for `insert`, `update ... where
    slug` and `delete ... where slug`.
- `modules_m.dfy` (`ModulesM`): the class `Modules`.
  - Its fields are the table and a journal of the writes and SQL statements
    sent to the store.
  - Its methods change both in place, as the PHP methods do.
  - Its loops are proved against specification functions:
    - `get_modules` against `Registry.Listing`;
    - the script loop against `Script.Kept`;
    - the two loops of `import_all` against the module's own `AddAll`,
      `ManifestRecords`, `RootRecords` and `Inserts`.
- `seq_facts.dfy` (`SeqFacts`): two general sequence facts the loop
  proofs use.

Boundaries are given as parameters:

- The database is the field `table` plus the journal `journal` of the
  writes and SQL statements sent to it. SQL statements are recorded, not
  interpreted.
- The file system is a `FileSystem` value: the modules directories with
  their sub-directories in `glob` order, each with the manifest read from
  its `details.xml` when that file exists.
- `CURRENT_LANGUAGE`, the current user's group and the permission
  service's `has_admin_access` are a `Caller` value.

The slug is a unique key of the table, and `add` of a stored slug is
rejected by the store. This is modelled as `add` returning FALSE with the
table unchanged, not as a precondition.

A table is well formed (`Registry.WellFormed`) when its slugs are
distinct, every name and description has an `en` entry, and every row's
controller names are distinct, as the keys of a PHP array are. Then
`Manifest.Names` and `Manifest.Lookup` on a stored row are exactly
`array_keys` and keyed lookup.

## Model

| member | source | states |
|---|---|---|
| PhpString.PhpEmpty | application/modules/modules/models/modules_m.php:53 | PHP's `empty()` on a string: true for "" and for "0" only, as used by `get` and by the script loops at lines 374 and 410 |
| PhpString.Trim | application/modules/modules/models/modules_m.php:369-373 | the result starts and ends with no `trim` character and is no longer than the input |
| PhpString.TrimLeftSuffix | application/modules/modules/models/modules_m.php:373 | the left trim is a suffix of its input |
| PhpString.TrimLeftDropsWhitespace | application/modules/modules/models/modules_m.php:373 | everything the left trim cuts is whitespace |
| PhpString.TrimRightPrefix | application/modules/modules/models/modules_m.php:373 | the right trim is a prefix of its input |
| PhpString.TrimRightDropsWhitespace | application/modules/modules/models/modules_m.php:373 | everything the right trim cuts is whitespace |
| PhpString.TrimIsSlice | application/modules/modules/models/modules_m.php:373 | `trim` returns a contiguous slice, and everything before and after that slice is whitespace |
| PhpString.TrimIdempotent | application/modules/modules/models/modules_m.php:373-376 | a string with no whitespace at either end is its own trim |
| PhpString.TrimTwice | application/modules/modules/models/modules_m.php:373-376 | trimming an already trimmed statement again (the `trim($sql)` inside `query`) changes nothing |
| PhpString.TrimLeftPadded | application/modules/modules/models/modules_m.php:369 | left-trimming whitespace padding followed by a non-whitespace start gives that rest |
| PhpString.TrimRightPadded | application/modules/modules/models/modules_m.php:369 | right-trimming a non-whitespace end followed by whitespace padding gives the rest |
| PhpString.TrimPadded | application/modules/modules/models/modules_m.php:369 | `trim` removes exactly the whitespace padding around a non-empty trimmed core |
| PhpString.Explode | application/modules/modules/models/modules_m.php:369 | `explode` always returns at least one piece |
| PhpString.ExplodeJoin | application/modules/modules/models/modules_m.php:369 | joining the pieces of `explode` with the delimiter gives back the input |
| PhpString.ExplodePiecesFree | application/modules/modules/models/modules_m.php:369 | no piece of `explode` contains the delimiter |
| PhpString.ExplodeAtFirst | application/modules/modules/models/modules_m.php:369 | `explode` cuts at the first occurrence of the delimiter |
| PhpString.ExplodeShort | application/modules/modules/models/modules_m.php:369 | a string shorter than the delimiter is one piece |
| PhpString.JoinStartsWithFirst | application/modules/modules/models/modules_m.php:369 | the joined text starts with the first piece |
| PhpString.SliceFree | application/modules/modules/models/modules_m.php:373 | a slice of a text free of the delimiter is free of it |
| PhpString.TrimFree | application/modules/modules/models/modules_m.php:373 | trimming a text free of the delimiter keeps it free |
| Locale.Resolve | application/modules/modules/models/modules_m.php:70-86 | the text for the current language when that key is set, the English text otherwise, and always one of the map's values |
| Locale.ResolveDependsOnTwoKeys | application/modules/modules/models/modules_m.php:70-86 | only the entries for the current language and English decide the shown text |
| Locale.ResolveNonEmpty | application/modules/modules/models/modules_m.php:70-86 | with no empty entry the shown text is never empty |
| Manifest.Names | application/modules/modules/models/modules_m.php:270 | `array_keys` of the controllers table: one key per entry, in order |
| Manifest.IsOne | application/modules/modules/models/modules_m.php:499-502 | a flag is set exactly when its element compares equal to 1 |
| Manifest.Lookup | application/modules/modules/models/modules_m.php:288 | `$controllers[$controller]['methods']`, or none without that key (LookupSpec) |
| Manifest.LookupSpec | application/modules/modules/models/modules_m.php:288 | no methods exactly when the name is not a key; otherwise the methods of an entry with that name |
| Manifest.IndexOfName | application/modules/modules/models/modules_m.php:288 | the position of the first entry with that key, or none when no entry has it |
| Manifest.Put | application/modules/modules/models/modules_m.php:491 | `$controllers[$name] = ...`: the key then maps to the new methods and every other key's methods are unchanged; a new key is appended to the keys, an existing key keeps its place; keys stay unique |
| Manifest.PutExisting | application/modules/modules/models/modules_m.php:491 | assigning to an existing key overwrites its entry in place: every key keeps its position, that key maps to the new methods, the others are unchanged |
| Manifest.PutNew | application/modules/modules/models/modules_m.php:491 | assigning to a new key appends it: the old keys keep their positions and methods, and the new key maps to its methods |
| Manifest.Collect | application/modules/modules/models/modules_m.php:472-492 | the controllers table built by the loop has unique keys |
| Manifest.NodeNames | application/modules/modules/models/modules_m.php:476 | the `name` attributes of the controller elements, in document order |
| Manifest.Dedup | application/modules/modules/models/modules_m.php:491 | the distinct names, each once |
| Manifest.CollectNames | application/modules/modules/models/modules_m.php:472-492 | the table's keys are the controller names once each, in order of first appearance |
| Manifest.CollectLastWins | application/modules/modules/models/modules_m.php:476-491 | a repeated controller name takes the methods of its last element |
| Manifest.CollectAbsent | application/modules/modules/models/modules_m.php:472-492 | a name no element carries has no entry |
| Manifest.Parse | application/modules/modules/models/modules_m.php:494-506 | name and description carried over; each flag true exactly when its element equals 1; version and type carried over; controllers are the table the controllers loop builds (`Collect`), keyed uniquely by name; install and uninstall scripts carried over |
| Registry.FirstIndex | application/modules/modules/models/modules_m.php:59-60 | the first row with the slug, or none when no row has it |
| Registry.Exists | application/modules/modules/models/modules_m.php:299-306 | TRUE exactly when some row, enabled or not, has the slug |
| Registry.ViewOf | application/modules/modules/models/modules_m.php:88-101 | the array `get` and `get_modules` build from a row: its columns, with name and description resolved for the language (FoundView, ListingSelects) |
| Registry.Get | application/modules/modules/models/modules_m.php:35-105 | the NULL sentinel exactly for an array, an empty slug or an unknown slug; FALSE only for a disabled stored row; otherwise the view of an enabled row with that slug |
| Registry.GetStored | application/modules/modules/models/modules_m.php:59-101 | on a well-formed table, `get` of a stored, non-empty slug is FALSE when its row is disabled and its row's view otherwise |
| Registry.FoundView | application/modules/modules/models/modules_m.php:88-101 | a found module shows its slug, core flag and controllers, and its name and description for the asked language |
| Registry.GetModuleControllers | application/modules/modules/models/modules_m.php:264-274 | nothing unless `get` finds the module |
| Registry.GetModuleControllerMethods | application/modules/modules/models/modules_m.php:284-289 | nothing unless `get` finds the module |
| Registry.ControllersOfStored | application/modules/modules/models/modules_m.php:264-289 | a stored module with a non-empty slug has its controllers' names as keys when it is enabled and nothing when disabled; its methods of a controller are that entry's methods when enabled and present, nothing otherwise |
| Registry.Keep | application/modules/modules/models/modules_m.php:180-247 | a row is listed exactly when it passes every `continue` test: enabled or disabled asked for, the front-end flag, the back-end flag with permission, `is_core`, `is_backend_menu` (ListingSelects, ListingFilters) |
| Registry.Listing | application/modules/modules/models/modules_m.php:173-253 | never more modules than rows |
| Registry.KeptIndices | application/modules/modules/models/modules_m.php:177-249 | every selected position is a row of the table |
| Registry.ListingSelects | application/modules/modules/models/modules_m.php:173-253 | `get_modules` is an order-preserving selection: entry k is the view of row ix[k], which passes every filter; positions increase; every row that passes is selected |
| Registry.ListingAtIndices | application/modules/modules/models/modules_m.php:205-249 | entry k of the listing is the view of the k-th selected row |
| Registry.KeptIndicesOrdered | application/modules/modules/models/modules_m.php:177-249 | the selected positions pass every filter, increase, and include every passing row |
| Registry.ListingFilters | application/modules/modules/models/modules_m.php:180-247 | every listed module is enabled unless disabled ones are asked for, is front-end / back-end when asked, is accessible to the user's group for the back end, and matches `is_core` and `is_backend_menu` when set |
| Registry.ListingEverything | application/modules/modules/models/modules_m.php:173-253 | with no filter and disabled modules included, every row is listed in table order |
| Registry.EnabledPatch | application/modules/modules/models/modules_m.php:320 | `array('enabled' => 1)` or, as at line 338, `array('enabled' => 0)`: sets only `enabled` |
| Registry.ApplyPatch | application/modules/modules/models/modules_m.php:146 | one row after `update`: each column the patch sets takes its value (ApplyPatchKeeps) |
| Registry.ApplyPatchKeeps | application/modules/modules/models/modules_m.php:146 | the patched row keeps its slug, name, description and controllers; `enabled` takes the patch's value when given and is kept otherwise |
| Registry.UpdateRows | application/modules/modules/models/modules_m.php:146 | the table after `update` where slug: the patch on the slug's rows (UpdateRowsShape, UpdateAbsent, UpdateIdempotent) |
| Registry.UpdateRowsShape | application/modules/modules/models/modules_m.php:144-147 | `update` keeps the row count and every slug, changes only rows with the slug, keeps the table well formed and `exists` unchanged |
| Registry.UpdateAbsent | application/modules/modules/models/modules_m.php:144-147 | an update of an unknown slug changes nothing |
| Registry.UpdateIdempotent | application/modules/modules/models/modules_m.php:144-147 | the same update twice equals it once |
| Registry.EnableDisableThenGet | application/modules/modules/models/modules_m.php:316-342 | after `enable` a stored, non-empty slug is found enabled; after `disable` `get` answers FALSE while `exists` still holds |
| Registry.RemoveSlug | application/modules/modules/models/modules_m.php:158-161 | delete never adds rows |
| Registry.RemoveSlugMembers | application/modules/modules/models/modules_m.php:158-161 | exactly the rows with another slug remain, so the slug no longer exists |
| Registry.RemoveSlugAbsent | application/modules/modules/models/modules_m.php:158-161 | deleting an unknown slug changes nothing |
| Registry.RemoveSlugOrder | application/modules/modules/models/modules_m.php:158-161 | the remaining rows keep their relative order |
| Registry.RemoveSlugWellFormed | application/modules/modules/models/modules_m.php:158-161 | delete keeps the table well formed |
| Registry.RemoveSlugUnique | application/modules/modules/models/modules_m.php:158-161 | delete keeps slugs unique |
| Registry.RemoveSlugCount | application/modules/modules/models/modules_m.php:158-161 | deleting a stored slug removes exactly one row |
| Registry.RecordOf | application/modules/modules/models/modules_m.php:118-131 | the row `add` stores for a parsed descriptor, enabled, with the given slug and core flag |
| Registry.AddRow | application/modules/modules/models/modules_m.php:118 | the table after `insert` under the unique key on slug (AddRowSpec) |
| Registry.AddRowSpec | application/modules/modules/models/modules_m.php:116-131 | a row with a new slug is appended and one with a stored slug leaves the table unchanged; the table stays well formed; the stored slugs become the old ones plus the row's; a new enabled row with a non-empty slug is then found by `get` |
| Script.Segments | application/modules/modules/models/modules_m.php:369 | the trimmed script splits into at least one segment |
| Script.Kept | application/modules/modules/models/modules_m.php:371-378 | no more statements than segments; KeptInOrder gives one statement per non-empty segment, in order |
| Script.KeptPositions | application/modules/modules/models/modules_m.php:371-374 | the positions of the segments that are not PHP-empty once trimmed, each a segment |
| Script.KeptInOrder | application/modules/modules/models/modules_m.php:371-378 | statement k is the trimmed segment at position ix[k], which is not PHP-empty; the positions increase; every such segment has a position, so the statements are sent once each, in segment order |
| Script.KeptAtPositions | application/modules/modules/models/modules_m.php:371-378 | as many statements as positions, statement k being the trimmed segment at position ix[k] |
| Script.KeptPositionsOrdered | application/modules/modules/models/modules_m.php:371-374 | the positions increase and include every segment that is not PHP-empty once trimmed |
| Script.Statements | application/modules/modules/models/modules_m.php:369-378 | the statements of a script text, in order: the non-empty trimmed segments of the trimmed text (StatementsClean, KeptInOrder) |
| Script.ScriptStatements | application/modules/modules/models/modules_m.php:367-369 | nothing for an absent or empty script element, the script's statements otherwise (GuardRedundant) |
| Script.KeptSound | application/modules/modules/models/modules_m.php:373-376 | every statement sent is the trimmed, non-empty form of some segment |
| Script.KeptComplete | application/modules/modules/models/modules_m.php:373-376 | every segment whose trimmed form is not PHP-empty is sent |
| Script.KeptSnoc | application/modules/modules/models/modules_m.php:371-378 | one more segment adds its trimmed form exactly when that is not PHP-empty |
| Script.StatementsClean | application/modules/modules/models/modules_m.php:369-376 | every statement sent is trimmed, not PHP-empty and free of the delimiter |
| Script.SegmentsRoundTrip | application/modules/modules/models/modules_m.php:369 | the segments joined by the delimiter give back the trimmed script, and none contains the delimiter |
| Script.BlankTrimsAway | application/modules/modules/models/modules_m.php:369 | an all-whitespace text trims to nothing |
| Script.BlankScriptRunsNothing | application/modules/modules/models/modules_m.php:369-378 | an all-whitespace script sends no statement |
| Script.GuardRedundant | application/modules/modules/models/modules_m.php:367 | the `!empty($module['install'])` guard sends the same statements as running the script unguarded |
| Script.TwoStatementScript | application/modules/modules/models/modules_m.php:367-378 | a two-statement script with a trailing delimiter and padding sends exactly `A;` then `B;` |
| ModulesM.Locate | application/modules/modules/models/modules_m.php:355 | the manifest of a directory with that base name, or none when every such directory lacks `details.xml` |
| ModulesM.Roots | application/modules/modules/models/modules_m.php:428-437 | the two roots, application modules then third-party modules; the first is core exactly when the application directory is not named `third_party`, the second never is |
| ModulesM.IsCoreRoot | application/modules/modules/models/modules_m.php:437 | a root is core exactly when its parent directory is not named `third_party` (ImportRowsOrder) |
| ModulesM.ThirdPartyManifest | application/modules/modules/models/modules_m.php:355 | the manifest at `third_party/modules/<slug>/details.xml`, read as at line 395 too, if that file exists (Locate) |
| ModulesM.ImportedRecord | application/modules/modules/models/modules_m.php:435-439 | the row `import_all` adds for one directory's manifest (ImportedRecordFields) |
| ModulesM.ImportedRecordFields | application/modules/modules/models/modules_m.php:435-439 | that row has the directory's base name as slug, is enabled, has the root's core flag, and the manifest's name, description and controllers |
| ModulesM.InstalledRecord | application/modules/modules/models/modules_m.php:362-364 | the row `install` adds (InstalledRecordFields) |
| ModulesM.InstalledRecordFields | application/modules/modules/models/modules_m.php:360-364 | that row has the given slug, is enabled, is not core, and has the manifest's name, description and controllers |
| ModulesM.RootRecords | application/modules/modules/models/modules_m.php:428-451 | the rows of several roots, root after root (ImportRowsOrder) |
| ModulesM.ImportRows | application/modules/modules/models/modules_m.php:428-451 | every row `import_all` attempts, application modules first (ImportRowsOrder, ManifestRecordsInOrder) |
| ModulesM.AddAll | application/modules/modules/models/modules_m.php:451 | successive inserts under the unique key (AddAllWellFormed, AddAllFresh, AddAllConcat) |
| ModulesM.ManifestRecords | application/modules/modules/models/modules_m.php:431-451 | never more rows than directories; ManifestRecordsInOrder gives the row per directory with a manifest, in order |
| ModulesM.ManifestRecordsSpec | application/modules/modules/models/modules_m.php:431-451 | as a set, a root's rows are the imported records of its directories with a manifest, in both directions |
| ModulesM.ManifestPositions | application/modules/modules/models/modules_m.php:431-433 | the positions of the directories holding `details.xml`, each a directory of the root |
| ModulesM.ManifestRecordsInOrder | application/modules/modules/models/modules_m.php:431-451 | row k is the imported record of the directory at position ix[k], which holds a manifest; the positions increase; every directory with a manifest has a position, so there is one row per such directory, in `glob` order |
| ModulesM.ManifestRecordsAtPositions | application/modules/modules/models/modules_m.php:431-451 | as many rows as positions, row k being the record of the directory at position ix[k] |
| ModulesM.ManifestPositionsOrdered | application/modules/modules/models/modules_m.php:431-433 | the positions increase and include every directory with a manifest |
| ModulesM.ImportedRecordShape | application/modules/modules/models/modules_m.php:435-439 | every imported row is enabled, has its directory's base name as slug and its root's core flag, has keyed controllers, and has English texts when the manifests do |
| ModulesM.ManifestlessDirAddsNothing | application/modules/modules/models/modules_m.php:433 | a directory without `details.xml` adds no row |
| ModulesM.ImportRowsOrder | application/modules/modules/models/modules_m.php:428-437 | application modules come first (core unless that directory is named `third_party`), then third-party modules (never core) |
| ModulesM.AddAllConcat | application/modules/modules/models/modules_m.php:428-451 | inserting one batch after another is inserting the two joined |
| ModulesM.AddAllWellFormed | application/modules/modules/models/modules_m.php:451 | successive inserts of localized rows with keyed controllers keep the table well formed and store every slug of the batch |
| ModulesM.AddAllFresh | application/modules/modules/models/modules_m.php:451 | when the batch's slugs are new and distinct, every insert is accepted and the rows are appended in order |
| ModulesM.RootRecordsLocalized | application/modules/modules/models/modules_m.php:428-451 | every imported row has keyed controllers, and English texts when every manifest does |
| ModulesM.Queries | application/modules/modules/models/modules_m.php:376 | one query per statement, in order |
| ModulesM.Inserts | application/modules/modules/models/modules_m.php:451 | one insert per row, in order |
| ModulesM.Modules.constructor | application/modules/modules/models/modules_m.php:20-24 | starts on a given well-formed table with an empty journal |
| ModulesM.Modules.Add | application/modules/modules/models/modules_m.php:116-131 | answers TRUE exactly when the slug is new; the table is then the old one plus the row, otherwise the old one; one insert is journaled |
| ModulesM.Modules.Update | application/modules/modules/models/modules_m.php:144-147 | answers the store's success (TRUE); the table gets the patch on every row with the slug; one update is journaled |
| ModulesM.Modules.Delete | application/modules/modules/models/modules_m.php:158-161 | the table loses every row with the slug; one delete is journaled |
| ModulesM.Modules.SetEnabled | application/modules/modules/models/modules_m.php:316-342 | TRUE and the `enabled` update exactly when the slug is stored; FALSE and no change otherwise |
| ModulesM.Modules.Enable | application/modules/modules/models/modules_m.php:316-324 | TRUE and `enabled = 1` on the slug's row when it is stored; FALSE and no change otherwise |
| ModulesM.Modules.Disable | application/modules/modules/models/modules_m.php:334-342 | TRUE and `enabled = 0` on the slug's row when it is stored; FALSE and no change otherwise |
| ModulesM.Modules.GetModules | application/modules/modules/models/modules_m.php:173-253 | the loop returns the listing function's result, so every property of it above holds |
| ModulesM.Modules.RunScript | application/modules/modules/models/modules_m.php:367-379 | the journal gains the script's statements as queries, in order; nothing for an absent or empty script; the table is untouched |
| ModulesM.Modules.RunSegments | application/modules/modules/models/modules_m.php:371-378 | the loop queries each trimmed non-empty segment, in order |
| ModulesM.Modules.Install | application/modules/modules/models/modules_m.php:352-382 | with no manifest, FALSE and no change; otherwise the install statements are queried, then the enabled non-core row for the slug is inserted, and the answer is the insert's |
| ModulesM.Modules.Uninstall | application/modules/modules/models/modules_m.php:392-418 | with no manifest, FALSE and no change; otherwise the uninstall statements are queried, then the slug's rows are deleted, answering TRUE |
| ModulesM.Modules.ImportRoot | application/modules/modules/models/modules_m.php:431-453 | the inner loop inserts the row of every directory with a manifest, in order |
| ModulesM.Modules.ImportAll | application/modules/modules/models/modules_m.php:421-456 | the table is emptied, then rebuilt by inserting every manifest's row, application modules first; the journal shows the empty followed by the inserts |
| ModulesM.ImportAllResult | application/modules/modules/models/modules_m.php:421-456 | the rebuilt table is well formed and stores every imported slug; with distinct slugs it is exactly the imported rows in order |
| ModulesM.InstallThenGet | application/modules/modules/models/modules_m.php:352-382 | after installing a new non-empty slug, `get` finds it enabled, not core, with the manifest's name and description |
| ModulesM.UninstallThenGet | application/modules/modules/models/modules_m.php:392-418 | after uninstalling, `exists` is false and `get` gives the NULL sentinel |

## Left out

- The journal holds only the writes and SQL statements sent to the store. Its reads are not journaled: the `exists` query that `enable` and `disable` run first (modules_m.php:299-301), the select of `get` (:59-60) and that of `get_modules` (:177). So `journal == old(journal)` means no write, not no call.
- SQL is recorded as text and never interpreted. The effects of the install and uninstall scripts on other tables are not modelled, and neither are database errors, transactions or concurrent callers.
- Reading XML (`simplexml_load_file`) is not modelled: a manifest arrives as an already-read tree. Ill-formed XML and a missing root element are out of scope.
- Manifest.Parse: a flag element is given by the number PHP reads from its text, or none; how PHP turns the element into that number is not modelled.
- `serialize` and `unserialize` of the name, description and controllers columns are not modelled: rows hold the decoded values.
- Registry.ApplyPatch: `update` can change only the scalar columns. An update of the serialized columns or of the slug itself, and an update with an unknown column, are not modelled.
- The pure `get` and `exists` functions compare slugs exactly. The table's case-insensitive collation is not modelled.
- A controller name that PHP would turn into an integer array key is kept as a string.
- The `$name` computed in `import_all` (modules_m.php:441-449) is never used, so it is left out.
- ModulesM.Modules.Add: requires an `en` entry in name and description. The source accepts any row, but then `get` (modules_m.php:73, 82) reads a missing `en` key. `Install` and `ImportAll` require the same of their manifests.
- ModulesM.Modules.Add: requires the row's controller names to be distinct. A PHP array cannot repeat a key, so every row the source can build meets this.
- ModulesM.Modules.Add: a rejected insert is still journaled as an attempted `Insert`. The rejection itself comes from the store's unique key on `slug`, which `add` relies on rather than checks.
- ModulesM.Modules.Update: an empty patch (every column `None`, that is `update($slug, array())`) is not modelled as a failure. The store has no column to set then and does not report success, yet `ok` is TRUE. Its callers `enable` and `disable` always set `enabled`.
- ModulesM.Modules.RunSegments: the double `trim($sql)` before the query is modelled as one trim. `PhpString.TrimTwice` shows that the second trim changes nothing.
- File paths are not modelled. A slug containing `/`, an empty slug in `install`, and two directories with the same base name are resolved by `ModulesM.Locate` taking the first directory with a manifest.
- `Registry.Get` distinguishes an array argument (`SlugArg.ArrayArg`) from a string. Other argument types (numbers, NULL) are not modelled.
- Default arguments are not modelled: `get($module = '')` (modules_m.php:35), `get_module_controllers($module = '')` (:264) and `get_modules($params = array(), $return_disabled = FALSE)` (:173) take their arguments explicitly. The defaults are `Text("")`, `NoFilter` and `false`, which reach the same cases.
- `get_modules` compares `is_core` and `is_backend_menu` loosely in PHP. Here they are booleans compared for equality.
