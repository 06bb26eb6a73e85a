/**
  `Modules_m`, the module registry: the `modules` table as a class whose
  methods change it in place, the calls it makes on the store, and the
  lifecycle operations `install`, `uninstall` and `import_all` over an
  abstract file system.
 */
module ModulesM {
  import opened Optional
  import opened PhpString
  import opened Locale
  import opened Manifest
  import opened Script
  import opened Registry
  import opened SeqFacts

  /** A write or SQL statement the registry sends to the store, in the order
      it is sent. Reads (`exists`, the selects of `get` and `get_modules`)
      are not journaled. SQL text is recorded, not interpreted. */
  datatype StoreCall =
    | Query(sql: string)
    | Insert(row: Record)
    | UpdateWhere(slug: string, patch: Patch)
    | DeleteWhere(slug: string)
    | EmptyTable

  /** A sub-directory of a modules root: its base name, and the manifest
      read from its `details.xml` when that file is there. */
  datatype ModuleDir = ModuleDir(basename: string, manifest: Option<RawManifest>)

  /** A modules root: the base name of the directory that holds it and its
      sub-directories in `glob` order. */
  datatype Root = Root(parentName: string, dirs: seq<ModuleDir>)

  /** The two roots the registry reads: `APPPATH.'modules/'`, whose parent
      is the application directory, and `third_party/modules/`. */
  datatype FileSystem = FileSystem(appDirName: string, appModules: seq<ModuleDir>, thirdPartyModules: seq<ModuleDir>)

  const ThirdParty := "third_party"

  /** The array of roots `import_all` walks, in that order; the second is
      never a core root. */
  function Roots(fs: FileSystem): (roots: seq<Root>)
    ensures |roots| == 2
    ensures roots[0].dirs == fs.appModules && roots[1].dirs == fs.thirdPartyModules
    ensures (IsCoreRoot(roots[0]) <==> fs.appDirName != ThirdParty) && !IsCoreRoot(roots[1])
  {
    [Root(fs.appDirName, fs.appModules), Root(ThirdParty, fs.thirdPartyModules)]
  }

  /** `basename(dirname($directory)) != 'third_party'`. */
  predicate IsCoreRoot(root: Root) {
    root.parentName != ThirdParty
  }

  /** The manifest at `<dirs>/<slug>/details.xml`, if that file exists. */
  function Locate(dirs: seq<ModuleDir>, slug: string): (m: Option<RawManifest>)
    ensures m.Some? ==> exists i :: 0 <= i < |dirs| && dirs[i].basename == slug && dirs[i].manifest == m
    ensures m.None? ==> forall i :: 0 <= i < |dirs| && dirs[i].basename == slug ==> dirs[i].manifest.None?
  {
    if dirs == [] then None
    else if dirs[0].basename == slug && dirs[0].manifest.Some? then dirs[0].manifest
    else Locate(dirs[1..], slug)
  }

  /** `third_party/modules/<slug>/details.xml`, as `install` and `uninstall`
      read it. */
  function ThirdPartyManifest(fs: FileSystem, slug: string): Option<RawManifest> {
    Locate(fs.thirdPartyModules, slug)
  }

  /** A manifest the registry can store: both maps have an English entry. */
  predicate HasDefaultText(m: RawManifest) {
    Default in m.name && Default in m.description
  }

  predicate DirsAcceptable(dirs: seq<ModuleDir>) {
    forall i :: 0 <= i < |dirs| && dirs[i].manifest.Some? ==> HasDefaultText(dirs[i].manifest.value)
  }

  predicate FsAcceptable(fs: FileSystem) {
    DirsAcceptable(fs.appModules) && DirsAcceptable(fs.thirdPartyModules)
  }

  /** The row `import_all` adds for one directory's manifest. */
  function ImportedRecord(m: RawManifest, basename: string, isCore: bool): Record {
    RecordOf(Parse(m), basename, isCore)
  }

  /** The imported row: the directory's base name as slug, enabled, the
      root's core flag, and the manifest's texts and controllers. */
  lemma ImportedRecordFields(m: RawManifest, basename: string, isCore: bool)
    ensures var r := ImportedRecord(m, basename, isCore);
      && r.slug == basename && r.enabled && r.isCore == isCore
      && r.name == m.name && r.description == m.description
      && r.controllers == Collect(m.controllers)
  {
  }

  /** The rows one root contributes: one per sub-directory with a manifest,
      in directory order. */
  function ManifestRecords(dirs: seq<ModuleDir>, isCore: bool): (rs: seq<Record>)
    ensures |rs| <= |dirs|
  {
    if dirs == [] then []
    else
      var last := dirs[|dirs| - 1];
      var init := ManifestRecords(dirs[..|dirs| - 1], isCore);
      if last.manifest.Some? then init + [ImportedRecord(last.manifest.value, last.basename, isCore)] else init
  }

  /** The rows of several roots, root after root. */
  function RootRecords(roots: seq<Root>): seq<Record> {
    if roots == [] then []
    else
      var last := roots[|roots| - 1];
      RootRecords(roots[..|roots| - 1]) + ManifestRecords(last.dirs, IsCoreRoot(last))
  }

  /** Every row `import_all` attempts to insert, in order. */
  function ImportRows(fs: FileSystem): seq<Record> {
    RootRecords(Roots(fs))
  }

  /** Successive inserts, each rejected when its slug is already stored. */
  function AddAll(t: seq<Record>, rs: seq<Record>): seq<Record> {
    if rs == [] then t else AddRow(AddAll(t, rs[..|rs| - 1]), rs[|rs| - 1])
  }

  function Queries(stmts: seq<string>): (cs: seq<StoreCall>)
    ensures |cs| == |stmts| && forall k :: 0 <= k < |stmts| ==> cs[k] == Query(stmts[k])
  {
    if stmts == [] then [] else Queries(stmts[..|stmts| - 1]) + [Query(stmts[|stmts| - 1])]
  }

  function Inserts(rs: seq<Record>): (cs: seq<StoreCall>)
    ensures |cs| == |rs| && forall k :: 0 <= k < |rs| ==> cs[k] == Insert(rs[k])
  {
    if rs == [] then [] else Inserts(rs[..|rs| - 1]) + [Insert(rs[|rs| - 1])]
  }

  // Proof helpers for the loops of the class below: one-step unfoldings of
  // the row and journal functions, each stated at the point a loop needs it.

  lemma QueriesSnoc(stmts: seq<string>, x: string)
    ensures Queries(stmts + [x]) == Queries(stmts) + [Query(x)]
  {
    assert (stmts + [x])[..|stmts|] == stmts;
  }

  /** Sending one more statement extends the journal by its query. */
  lemma JournalSnoc(j: seq<StoreCall>, sent: seq<string>, sql: string)
    ensures j + Queries(sent) + [Query(sql)] == j + Queries(sent + [sql])
  {
    QueriesSnoc(sent, sql);
    ConcatAssoc(j, Queries(sent), [Query(sql)]);
  }

  lemma StartEmpty(j: seq<StoreCall>, segs: seq<string>)
    ensures Kept(segs[..0]) == [] && j + Queries([]) == j
  {
    assert segs[..0] == [];
    assert j + [] == j;
  }

  /** One more segment adds at most one statement to what the loop sends. */
  lemma KeptPrefixStep(segs: seq<string>, i: nat)
    requires i < |segs|
    ensures Kept(segs[..i + 1]) == if PhpEmpty(Trim(segs[i])) then Kept(segs[..i]) else Kept(segs[..i]) + [Trim(segs[i])]
  {
    assert segs[..i + 1] == segs[..i] + [segs[i]];
    KeptSnoc(segs[..i], segs[i]);
  }

  lemma ManifestRecordsStep(dirs: seq<ModuleDir>, isCore: bool, i: nat)
    requires i < |dirs|
    ensures ManifestRecords(dirs[..i + 1], isCore) ==
      if dirs[i].manifest.Some?
      then ManifestRecords(dirs[..i], isCore) + [ImportedRecord(dirs[i].manifest.value, dirs[i].basename, isCore)]
      else ManifestRecords(dirs[..i], isCore)
  {
    assert dirs[..i + 1][..i] == dirs[..i];
  }

  /** One pass of the inner `import_all` loop: a directory with a manifest
      adds one insert of its record, one without adds nothing. */
  lemma ImportStep(t: seq<Record>, j: seq<StoreCall>, dirs: seq<ModuleDir>, isCore: bool, i: nat)
    requires i < |dirs| && DirsAcceptable(dirs)
    ensures var rs, d := ManifestRecords(dirs[..i], isCore), dirs[i];
      if d.manifest.Some? then
        var r := ImportedRecord(d.manifest.value, d.basename, isCore);
        && HasDefaultLocale(r) && UniqueNames(r.controllers)
        && AddAll(t, ManifestRecords(dirs[..i + 1], isCore)) == AddRow(AddAll(t, rs), r)
        && j + Inserts(ManifestRecords(dirs[..i + 1], isCore)) == j + Inserts(rs) + [Insert(r)]
      else
        ManifestRecords(dirs[..i + 1], isCore) == rs
  {
    var rs, d := ManifestRecords(dirs[..i], isCore), dirs[i];
    ManifestRecordsStep(dirs, isCore, i);
    if d.manifest.Some? {
      var r := ImportedRecord(d.manifest.value, d.basename, isCore);
      ImportedRecordFields(d.manifest.value, d.basename, isCore);
      assert HasDefaultText(d.manifest.value);
      assert ManifestRecords(dirs[..i + 1], isCore) == rs + [r];
      AddAllSnoc(t, rs, r);
      InsertsSnoc(rs, r);
    }
  }

  /** One pass of the outer `import_all` loop: a root adds its rows after
      those of the roots before it. */
  lemma RootStep(j: seq<StoreCall>, roots: seq<Root>, k: nat)
    requires k < |roots|
    ensures var before, added := RootRecords(roots[..k]), ManifestRecords(roots[k].dirs, IsCoreRoot(roots[k]));
      && AddAll([], RootRecords(roots[..k + 1])) == AddAll(AddAll([], before), added)
      && j + Inserts(RootRecords(roots[..k + 1])) == j + Inserts(before) + Inserts(added)
  {
    var before, added := RootRecords(roots[..k]), ManifestRecords(roots[k].dirs, IsCoreRoot(roots[k]));
    RootRecordsStep(roots, k);
    AddAllConcat([], before, added);
    JournalConcat(j, before, added);
  }

  lemma JournalConcat(j: seq<StoreCall>, a: seq<Record>, b: seq<Record>)
    ensures j + Inserts(a + b) == j + Inserts(a) + Inserts(b)
  {
    InsertsConcat(a, b);
  }

  lemma RootRecordsStep(roots: seq<Root>, k: nat)
    requires k < |roots|
    ensures RootRecords(roots[..k + 1]) == RootRecords(roots[..k]) + ManifestRecords(roots[k].dirs, IsCoreRoot(roots[k]))
  {
    var p := roots[..k + 1];
    assert p[..|p| - 1] == roots[..k];
    assert p[|p| - 1] == roots[k];
  }

  lemma AddAllSnoc(t: seq<Record>, rs: seq<Record>, r: Record)
    ensures AddAll(t, rs + [r]) == AddRow(AddAll(t, rs), r)
  {
    assert (rs + [r])[..|rs|] == rs;
  }

  lemma InsertsSnoc(rs: seq<Record>, r: Record)
    ensures Inserts(rs + [r]) == Inserts(rs) + [Insert(r)]
  {
    assert (rs + [r])[..|rs|] == rs;
  }

  lemma InsertsConcat(a: seq<Record>, b: seq<Record>)
    ensures Inserts(a + b) == Inserts(a) + Inserts(b)
  {
  }

  /** Inserting a batch after another is inserting the two batches joined. */
  lemma {:induction false} AddAllConcat(t: seq<Record>, a: seq<Record>, b: seq<Record>)
    ensures AddAll(AddAll(t, a), b) == AddAll(t, a + b)
  {
    if b != [] {
      var b0 := b[..|b| - 1];
      AddAllConcat(t, a, b0);
      assert (a + b)[..|a + b| - 1] == a + b0;
      assert (a + b)[|a + b| - 1] == b[|b| - 1];
    } else {
      assert a + b == a;
    }
  }

  /** Successive inserts keep the table well formed and leave every slug
      of the batch stored. */
  lemma {:induction false} AddAllWellFormed(t: seq<Record>, rs: seq<Record>)
    requires WellFormed(t) && AllLocalized(rs) && AllKeyed(rs)
    ensures WellFormed(AddAll(t, rs))
    ensures forall k :: 0 <= k < |rs| ==> Exists(AddAll(t, rs), rs[k].slug)
  {
    if rs != [] {
      var init, last := rs[..|rs| - 1], rs[|rs| - 1];
      assert forall k :: 0 <= k < |init| ==> init[k] == rs[k];
      AddAllWellFormed(t, init);
      var u := AddAll(t, init);
      AddRowSpec(u, last, Default);
      forall k | 0 <= k < |init| ensures Exists(AddRow(u, last), init[k].slug) {
        assert Exists(u, init[k].slug);
        var j :| 0 <= j < |u| && u[j].slug == init[k].slug;
        assert AddRow(u, last)[j] == u[j];
      }
    }
  }

  /** When the batch's slugs are new and pairwise distinct, every insert is
      accepted: the table is the old one followed by the batch. */
  lemma {:induction false} AddAllFresh(t: seq<Record>, rs: seq<Record>)
    requires UniqueSlugs(rs)
    requires forall k :: 0 <= k < |rs| ==> !Exists(t, rs[k].slug)
    ensures AddAll(t, rs) == t + rs
  {
    if rs != [] {
      var init, last := rs[..|rs| - 1], rs[|rs| - 1];
      assert forall k :: 0 <= k < |init| ==> init[k] == rs[k];
      AddAllFresh(t, init);
      assert !Exists(t + init, last.slug) by {
        forall j | 0 <= j < |t + init| ensures (t + init)[j].slug != last.slug {
          if j >= |t| {
            assert (t + init)[j] == rs[j - |t|];
          }
        }
      }
      assert t + init + [last] == t + rs;
    }
  }

  /** The rows of a root are exactly the imported records of its
      directories that hold a manifest. */
  lemma {:induction false} ManifestRecordsSpec(dirs: seq<ModuleDir>, isCore: bool)
    ensures forall r :: r in ManifestRecords(dirs, isCore) <==>
      exists i :: 0 <= i < |dirs| && dirs[i].manifest.Some?
        && r == ImportedRecord(dirs[i].manifest.value, dirs[i].basename, isCore)
  {
    if dirs != [] {
      var init := dirs[..|dirs| - 1];
      ManifestRecordsSpec(init, isCore);
      assert forall i :: 0 <= i < |init| ==> init[i] == dirs[i];
    }
  }

  /** The positions of the directories that hold a manifest, in `glob` order. */
  function ManifestPositions(dirs: seq<ModuleDir>): (ix: seq<nat>)
    ensures forall k :: 0 <= k < |ix| ==> ix[k] < |dirs|
  {
    if dirs == [] then []
    else
      var init := ManifestPositions(dirs[..|dirs| - 1]);
      if dirs[|dirs| - 1].manifest.Some? then init + [|dirs| - 1] else init
  }

  /** The rows of a root follow its directories: row k is the imported record
      of the directory at position ix[k], the positions increase, and every
      directory with a manifest has one. */
  lemma ManifestRecordsInOrder(dirs: seq<ModuleDir>, isCore: bool)
    ensures |ManifestRecords(dirs, isCore)| == |ManifestPositions(dirs)|
    ensures forall k :: 0 <= k < |ManifestPositions(dirs)| ==>
      var d := dirs[ManifestPositions(dirs)[k]];
      d.manifest.Some? && ManifestRecords(dirs, isCore)[k] == ImportedRecord(d.manifest.value, d.basename, isCore)
    ensures forall k, l :: 0 <= k < l < |ManifestPositions(dirs)| ==>
      ManifestPositions(dirs)[k] < ManifestPositions(dirs)[l]
    ensures forall i :: 0 <= i < |dirs| && dirs[i].manifest.Some? ==> i in ManifestPositions(dirs)
  {
    ManifestRecordsAtPositions(dirs, isCore);
    ManifestPositionsOrdered(dirs);
  }

  lemma {:induction false} ManifestRecordsAtPositions(dirs: seq<ModuleDir>, isCore: bool)
    ensures var rs, ix := ManifestRecords(dirs, isCore), ManifestPositions(dirs);
      && |rs| == |ix|
      && forall k :: 0 <= k < |ix| ==>
           (dirs[ix[k]].manifest.Some?
            && rs[k] == ImportedRecord(dirs[ix[k]].manifest.value, dirs[ix[k]].basename, isCore))
  {
    if dirs != [] {
      var init := dirs[..|dirs| - 1];
      ManifestRecordsAtPositions(init, isCore);
      var rs0, ix0 := ManifestRecords(init, isCore), ManifestPositions(init);
      var rs, ix := ManifestRecords(dirs, isCore), ManifestPositions(dirs);
      var last := dirs[|dirs| - 1];
      if last.manifest.Some? {
        assert rs == rs0 + [ImportedRecord(last.manifest.value, last.basename, isCore)];
        assert ix == ix0 + [|init|];
      } else {
        assert rs == rs0 && ix == ix0;
      }
      forall k | 0 <= k < |ix0|
        ensures ix[k] == ix0[k] && rs[k] == rs0[k] && dirs[ix[k]] == init[ix0[k]]
      {
        assert init[ix0[k]] == dirs[ix0[k]];
      }
    }
  }

  lemma {:induction false} ManifestPositionsOrdered(dirs: seq<ModuleDir>)
    ensures forall k, l :: 0 <= k < l < |ManifestPositions(dirs)| ==>
      ManifestPositions(dirs)[k] < ManifestPositions(dirs)[l]
    ensures forall i :: 0 <= i < |dirs| && dirs[i].manifest.Some? ==> i in ManifestPositions(dirs)
  {
    if dirs != [] {
      var init := dirs[..|dirs| - 1];
      ManifestPositionsOrdered(init);
      var ix0 := ManifestPositions(init);
      var ix := ManifestPositions(dirs);
      assert forall k :: 0 <= k < |ix0| ==> ix[k] == ix0[k] && ix0[k] < |init|;
      assert ix == ix0 || ix == ix0 + [|init|];
      forall k, l | 0 <= k < l < |ix| ensures ix[k] < ix[l] {
        assert ix[k] == ix0[k] && ix0[k] < |init|;
        if l < |ix0| {
          assert ix[l] == ix0[l] && ix0[k] < ix0[l];
        } else {
          assert ix[l] == |init|;
        }
      }
      forall i | 0 <= i < |dirs| && dirs[i].manifest.Some? ensures i in ix {
        if i < |init| {
          assert init[i] == dirs[i];
          assert i in ix0;
          var k :| 0 <= k < |ix0| && ix0[k] == i;
          assert ix[k] == i;
        } else {
          assert ix[|ix| - 1] == i;
        }
      }
    }
  }

  /** Every imported row is enabled, carries the base name of its directory
      as slug and the core flag of its root, and has an English name and
      description when the manifests do. */
  lemma ImportedRecordShape(dirs: seq<ModuleDir>, isCore: bool)
    ensures forall r :: r in ManifestRecords(dirs, isCore) ==>
      r.enabled && r.isCore == isCore && exists i :: 0 <= i < |dirs| && dirs[i].basename == r.slug
    ensures DirsAcceptable(dirs) ==> AllLocalized(ManifestRecords(dirs, isCore))
    ensures AllKeyed(ManifestRecords(dirs, isCore))
  {
    ManifestRecordsSpec(dirs, isCore);
    var rs := ManifestRecords(dirs, isCore);
    forall k | 0 <= k < |rs| && DirsAcceptable(dirs) ensures HasDefaultLocale(rs[k]) {
      assert rs[k] in rs;
    }
    forall k | 0 <= k < |rs| ensures UniqueNames(rs[k].controllers) {
      assert rs[k] in rs;
      var i :| 0 <= i < |dirs| && dirs[i].manifest.Some?
        && rs[k] == ImportedRecord(dirs[i].manifest.value, dirs[i].basename, isCore);
      ImportedRecordFields(dirs[i].manifest.value, dirs[i].basename, isCore);
    }
  }

  /** A directory without a manifest contributes nothing. */
  lemma ManifestlessDirAddsNothing(dirs: seq<ModuleDir>, d: ModuleDir, isCore: bool)
    requires d.manifest.None?
    ensures ManifestRecords(dirs + [d], isCore) == ManifestRecords(dirs, isCore)
  {
    assert (dirs + [d])[..|dirs|] == dirs;
  }

  lemma {:induction false} RootRecordsLocalized(roots: seq<Root>)
    requires forall k :: 0 <= k < |roots| ==> DirsAcceptable(roots[k].dirs)
    ensures AllLocalized(RootRecords(roots)) && AllKeyed(RootRecords(roots))
  {
    if roots != [] {
      var init, last := roots[..|roots| - 1], roots[|roots| - 1];
      assert forall k :: 0 <= k < |init| ==> init[k] == roots[k];
      RootRecordsLocalized(init);
      ImportedRecordShape(last.dirs, IsCoreRoot(last));
    }
  }

  /** `import_all` attempts the application modules first, as core modules
      when the application directory is not named `third_party`, then the
      third-party modules, never as core. */
  lemma ImportRowsOrder(fs: FileSystem)
    ensures ImportRows(fs) ==
      ManifestRecords(fs.appModules, fs.appDirName != ThirdParty) + ManifestRecords(fs.thirdPartyModules, false)
  {
    var roots := Roots(fs);
    var app := ManifestRecords(fs.appModules, fs.appDirName != ThirdParty);
    assert roots[..1] == [Root(fs.appDirName, fs.appModules)];
    assert roots[..1][..0] == [];
    assert RootRecords(roots[..1]) == [] + app;
    assert [] + app == app;
  }

  /** The core flag of `install`: a third-party module is never core. */
  function InstalledRecord(m: RawManifest, slug: string): Record {
    RecordOf(Parse(m), slug, false)
  }

  /** The installed row: the given slug, enabled, never core, and the
      manifest's texts and controllers. */
  lemma InstalledRecordFields(m: RawManifest, slug: string)
    ensures var r := InstalledRecord(m, slug);
      && r.slug == slug && r.enabled && !r.isCore
      && r.name == m.name && r.description == m.description
      && r.controllers == Collect(m.controllers)
  {
  }

  /** The `modules` table and the writes and SQL statements sent to the
      store so far. */
  class Modules {
    var table: seq<Record>
    var journal: seq<StoreCall>

    ghost predicate Valid()
      reads this
    {
      WellFormed(table)
    }

    constructor (t: seq<Record>)
      requires WellFormed(t)
      ensures table == t && journal == []
      ensures Valid()
    {
      table := t;
      journal := [];
    }

    /** `add`: insert a row; the store's unique key on `slug` rejects a
        duplicate, which leaves the table as it was. */
    method Add(r: Record) returns (ok: bool)
      requires Valid() && HasDefaultLocale(r) && UniqueNames(r.controllers)
      modifies this
      ensures ok == !Exists(old(table), r.slug)
      ensures table == AddRow(old(table), r)
      ensures journal == old(journal) + [Insert(r)]
      ensures Valid()
    {
      AddRowSpec(table, r, Default);
      ok := !Exists(table, r.slug);
      journal := journal + [Insert(r)];
      if ok {
        table := table + [r];
      }
    }

    /** `update`: set the patched columns on every row with that slug, and
        answer the store's success. */
    method Update(slug: string, p: Patch) returns (ok: bool)
      requires Valid()
      modifies this
      ensures ok
      ensures table == UpdateRows(old(table), slug, p)
      ensures journal == old(journal) + [UpdateWhere(slug, p)]
      ensures Valid()
    {
      UpdateRowsShape(table, slug, p);
      journal := journal + [UpdateWhere(slug, p)];
      table := UpdateRows(table, slug, p);
      ok := true;
    }

    /** `delete`: remove every row with that slug. */
    method Delete(slug: string) returns (ok: bool)
      requires Valid()
      modifies this
      ensures ok
      ensures table == RemoveSlug(old(table), slug)
      ensures journal == old(journal) + [DeleteWhere(slug)]
      ensures Valid()
    {
      RemoveSlugWellFormed(table, slug);
      journal := journal + [DeleteWhere(slug)];
      table := RemoveSlug(table, slug);
      ok := true;
    }

    /** `enable` and `disable`: when the slug is stored, set `enabled` on
        its row and answer TRUE; otherwise answer FALSE and change nothing. */
    method SetEnabled(slug: string, on: bool) returns (ok: bool)
      requires Valid()
      modifies this
      ensures ok == Exists(old(table), slug)
      ensures ok ==> (table == UpdateRows(old(table), slug, EnabledPatch(on))
        && journal == old(journal) + [UpdateWhere(slug, EnabledPatch(on))])
      ensures !ok ==> table == old(table) && journal == old(journal)
      ensures Valid()
    {
      if Exists(table, slug) {
        // `enable` and `disable` ignore the store's answer and report TRUE.
        var _ := Update(slug, EnabledPatch(on));
        ok := true;
      } else {
        ok := false;
      }
    }

    method Enable(slug: string) returns (ok: bool)
      requires Valid()
      modifies this
      ensures ok == Exists(old(table), slug)
      ensures ok ==> (table == UpdateRows(old(table), slug, EnabledPatch(true))
        && journal == old(journal) + [UpdateWhere(slug, EnabledPatch(true))])
      ensures !ok ==> table == old(table) && journal == old(journal)
      ensures Valid()
    {
      ok := SetEnabled(slug, true);
    }

    method Disable(slug: string) returns (ok: bool)
      requires Valid()
      modifies this
      ensures ok == Exists(old(table), slug)
      ensures ok ==> (table == UpdateRows(old(table), slug, EnabledPatch(false))
        && journal == old(journal) + [UpdateWhere(slug, EnabledPatch(false))])
      ensures !ok ==> table == old(table) && journal == old(journal)
      ensures Valid()
    {
      ok := SetEnabled(slug, false);
    }

    /** `get_modules`: one pass over the table, skipping the rows that fail
        a filter and appending the view of the others. */
    method GetModules(p: Params, returnDisabled: bool, c: Caller) returns (views: seq<View>)
      requires Valid()
      ensures views == Listing(table, p, returnDisabled, c)
    {
      views := [];
      var i := 0;
      while i < |table|
        invariant 0 <= i <= |table|
        invariant views == Listing(table[..i], p, returnDisabled, c)
      {
        var r := table[i];
        i := i + 1;
        assert table[..i][..i - 1] == table[..i - 1];
        if !returnDisabled && !r.enabled {
          continue;
        }
        var v := ViewOf(r, c.lang);
        if p.isFrontend && !v.isFrontend {
          continue;
        }
        if p.isBackend {
          if !v.isBackend {
            continue;
          }
          if !c.hasAdminAccess(c.group, v.slug) {
            continue;
          }
        }
        if p.isCore.Some? && v.isCore != p.isCore.value {
          continue;
        }
        if p.isBackendMenu.Some? && v.isBackendMenu != p.isBackendMenu.value {
          continue;
        }
        views := views + [v];
      }
      assert table[..i] == table;
    }

    /** The script part of `install` and `uninstall`: nothing for an
        absent or empty script, otherwise the statements of its segments.
        The table is untouched. */
    method RunScript(script: Option<string>)
      modifies this`journal
      ensures journal == old(journal) + Queries(ScriptStatements(script))
      ensures table == old(table)
    {
      if script.Some? && script.value != "" {
        RunSegments(Segments(script.value));
      } else {
        assert Queries([]) == [];
      }
    }

    /** The `foreach` over the pieces of `explode`: send each trimmed,
        non-empty piece to the store, in order. */
    method RunSegments(segs: seq<string>)
      modifies this`journal
      ensures journal == old(journal) + Queries(Kept(segs))
    {
      var i := 0;
      ghost var sent: seq<string> := [];
      StartEmpty(old(journal), segs);
      while i < |segs|
        invariant 0 <= i <= |segs|
        invariant sent == Kept(segs[..i])
        invariant journal == old(journal) + Queries(sent)
      {
        var sql := Trim(segs[i]);
        KeptPrefixStep(segs, i);
        if !PhpEmpty(sql) {
          // The source trims `sql` again before the query; by TrimTwice
          // that second trim returns `sql` itself.
          JournalSnoc(old(journal), sent, sql);
          journal := journal + [Query(sql)];
          sent := sent + [sql];
        }
        i := i + 1;
      }
      WholePrefix(segs);
    }

    /** `install`: without `third_party/modules/<slug>/details.xml` answer
        FALSE and do nothing; otherwise run the install script, then insert
        the enabled, non-core row for that slug. */
    method Install(fs: FileSystem, slug: string) returns (ok: bool)
      requires Valid()
      requires ThirdPartyManifest(fs, slug).Some? ==> HasDefaultText(ThirdPartyManifest(fs, slug).value)
      modifies this
      ensures ThirdPartyManifest(fs, slug).None? ==> !ok && table == old(table) && journal == old(journal)
      ensures ThirdPartyManifest(fs, slug).Some? ==>
        var m := ThirdPartyManifest(fs, slug).value;
        && ok == !Exists(old(table), slug)
        && table == AddRow(old(table), InstalledRecord(m, slug))
        && journal == old(journal) + Queries(ScriptStatements(m.install)) + [Insert(InstalledRecord(m, slug))]
      ensures Valid()
    {
      var m := ThirdPartyManifest(fs, slug);
      if m.None? {
        return false;
      }
      var d := Parse(m.value);
      var r := RecordOf(d, slug, false);
      RunScript(d.install);
      ok := Add(r);
    }

    /** `uninstall`: without the manifest answer FALSE and do nothing;
        otherwise run the uninstall script, then delete the slug's rows. */
    method Uninstall(fs: FileSystem, slug: string) returns (ok: bool)
      requires Valid()
      modifies this
      ensures ThirdPartyManifest(fs, slug).None? ==> !ok && table == old(table) && journal == old(journal)
      ensures ThirdPartyManifest(fs, slug).Some? ==>
        var m := ThirdPartyManifest(fs, slug).value;
        && ok
        && table == RemoveSlug(old(table), slug)
        && journal == old(journal) + Queries(ScriptStatements(m.uninstall)) + [DeleteWhere(slug)]
      ensures Valid()
    {
      var m := ThirdPartyManifest(fs, slug);
      if m.None? {
        return false;
      }
      var d := Parse(m.value);
      RunScript(d.uninstall);
      ok := Delete(slug);
    }

    /** The inner loop of `import_all`: insert the row of every directory of
        one root that holds a manifest. */
    method ImportRoot(dirs: seq<ModuleDir>, isCore: bool)
      requires Valid() && DirsAcceptable(dirs)
      modifies this
      ensures table == AddAll(old(table), ManifestRecords(dirs, isCore))
      ensures journal == old(journal) + Inserts(ManifestRecords(dirs, isCore))
      ensures Valid()
    {
      var i := 0;
      while i < |dirs|
        invariant 0 <= i <= |dirs|
        invariant table == AddAll(old(table), ManifestRecords(dirs[..i], isCore))
        invariant journal == old(journal) + Inserts(ManifestRecords(dirs[..i], isCore))
        invariant Valid()
      {
        var d := dirs[i];
        ImportStep(old(table), old(journal), dirs, isCore, i);
        if d.manifest.Some? {
          var inserted := Add(ImportedRecord(d.manifest.value, d.basename, isCore));
        }
        i := i + 1;
      }
      WholePrefix(dirs);
    }

    /** `import_all`: empty the table, then insert the rows of both roots,
        application modules first. */
    method ImportAll(fs: FileSystem)
      requires Valid() && FsAcceptable(fs)
      modifies this
      ensures table == AddAll([], ImportRows(fs))
      ensures journal == old(journal) + [EmptyTable] + Inserts(ImportRows(fs))
      ensures Valid()
    {
      journal := journal + [EmptyTable];
      table := [];
      var roots := Roots(fs);
      assert forall k :: 0 <= k < |roots| ==> DirsAcceptable(roots[k].dirs);
      var k := 0;
      while k < |roots|
        invariant 0 <= k <= |roots|
        invariant table == AddAll([], RootRecords(roots[..k]))
        invariant journal == old(journal) + [EmptyTable] + Inserts(RootRecords(roots[..k]))
        invariant Valid()
        invariant forall n :: 0 <= n < |roots| ==> DirsAcceptable(roots[n].dirs)
      {
        RootStep(old(journal) + [EmptyTable], roots, k);
        ImportRoot(roots[k].dirs, IsCoreRoot(roots[k]));
        k := k + 1;
      }
      WholePrefix(roots);
    }
  }

  /** After `import_all` the table holds only imported rows, all enabled,
      and when the slugs of the manifest-bearing directories are distinct it
      holds every one of them, in directory order. */
  lemma ImportAllResult(fs: FileSystem)
    requires FsAcceptable(fs)
    ensures WellFormed(AddAll([], ImportRows(fs)))
    ensures forall k :: 0 <= k < |ImportRows(fs)| ==> Exists(AddAll([], ImportRows(fs)), ImportRows(fs)[k].slug)
    ensures UniqueSlugs(ImportRows(fs)) ==> AddAll([], ImportRows(fs)) == ImportRows(fs)
  {
    var roots := Roots(fs);
    RootRecordsLocalized(roots);
    AddAllWellFormed([], ImportRows(fs));
    if UniqueSlugs(ImportRows(fs)) {
      AddAllFresh([], ImportRows(fs));
    }
  }

  /** Installing a new, non-empty slug makes `get` find it enabled and not
      core, with the descriptor's name and description. */
  lemma InstallThenGet(t: seq<Record>, m: RawManifest, slug: string, lang: string)
    requires WellFormed(t) && HasDefaultText(m) && !Exists(t, slug) && !PhpEmpty(slug)
    ensures var g := Get(AddRow(t, InstalledRecord(m, slug)), Text(slug), lang);
      && g.Found?
      && g.view.slug == slug && g.view.enabled && !g.view.isCore
      && g.view.name == Resolve(m.name, lang) && g.view.description == Resolve(m.description, lang)
  {
    AddRowSpec(t, InstalledRecord(m, slug), lang);
  }

  /** After uninstalling, `get` of that slug gives the sentinel and
      `exists` is false. */
  lemma UninstallThenGet(t: seq<Record>, slug: string, lang: string)
    requires WellFormed(t)
    ensures !Exists(RemoveSlug(t, slug), slug)
    ensures WellFormed(RemoveSlug(t, slug)) && Get(RemoveSlug(t, slug), Text(slug), lang) == NullModule
  {
    RemoveSlugMembers(t, slug);
    RemoveSlugWellFormed(t, slug);
  }
}
