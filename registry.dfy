/**
  The `modules` table and the pure operations over it: the record stored per
  module, the view `get` and `get_modules` build from a record, the lookups,
  the listing filter, and the table transformations the store performs for
  insert, update and delete.
 */
module Registry {
  import opened Optional
  import opened PhpString
  import opened Locale
  import opened Manifest

  /** A row of the `modules` table. Name, description and controllers are
      stored serialized; here they are kept as the values they encode. */
  datatype Record = Record(
    slug: string,
    name: Localized,
    description: Localized,
    version: string,
    moduleType: string,
    skipXss: bool,
    isFrontend: bool,
    isBackend: bool,
    isBackendMenu: bool,
    controllers: seq<Controller>,
    enabled: bool,
    isCore: bool)

  /** The array `get` and `get_modules` return for a record: name and
      description resolved for the active language. */
  datatype View = View(
    name: string,
    slug: string,
    version: string,
    moduleType: string,
    description: string,
    skipXss: bool,
    isFrontend: bool,
    isBackend: bool,
    isBackendMenu: bool,
    controllers: seq<Controller>,
    enabled: bool,
    isCore: bool)

  /** The three outcomes of `get`: the NULL-filled sentinel (every field NULL
      except `enabled = 1`), FALSE for a disabled module, or the view. */
  datatype GetResult = NullModule | Disabled | Found(view: View)

  /** The argument of `get`: a string slug, or an array. */
  datatype SlugArg = Text(slug: string) | ArrayArg

  /** The `$params` of `get_modules`: whether `is_frontend` / `is_backend`
      are given non-empty, and the values of `is_core` / `is_backend_menu`
      when they are set. */
  datatype Params = Params(
    isFrontend: bool,
    isBackend: bool,
    isCore: Option<bool>,
    isBackendMenu: Option<bool>)

  const NoFilter := Params(false, false, None, None)

  /** The ambient state a listing reads: the active language, the current
      user's group, and the permission service's `has_admin_access`. */
  datatype Caller = Caller(lang: string, group: int, hasAdminAccess: (int, string) -> bool)

  /** The columns an `update` call sets; None leaves a column alone. */
  datatype Patch = Patch(
    version: Option<string>,
    moduleType: Option<string>,
    skipXss: Option<bool>,
    isFrontend: Option<bool>,
    isBackend: Option<bool>,
    isBackendMenu: Option<bool>,
    enabled: Option<bool>,
    isCore: Option<bool>)

  /** `array('enabled' => 1)` or `array('enabled' => 0)`. */
  function EnabledPatch(on: bool): Patch {
    Patch(None, None, None, None, None, None, Some(on), None)
  }

  /** The row `add` inserts for a parsed descriptor: `enabled = 1`, and the
      given slug and core flag. */
  function RecordOf(d: Descriptor, slug: string, isCore: bool): Record {
    Record(slug, d.name, d.description, d.version, d.moduleType, d.skipXss,
      d.isFrontend, d.isBackend, d.isBackendMenu, d.controllers, true, isCore)
  }

  predicate HasDefaultLocale(r: Record) {
    Default in r.name && Default in r.description
  }

  predicate UniqueSlugs(t: seq<Record>) {
    forall i, j :: 0 <= i < j < |t| ==> t[i].slug != t[j].slug
  }

  predicate AllLocalized(t: seq<Record>) {
    forall i :: 0 <= i < |t| ==> HasDefaultLocale(t[i])
  }

  /** Every row's controllers are keyed by name, as a PHP array is. */
  predicate AllKeyed(t: seq<Record>) {
    forall i :: 0 <= i < |t| ==> UniqueNames(t[i].controllers)
  }

  /** The table invariant: the slug is a key, every name and description
      has an English entry, and every row's controller names are keys. */
  predicate WellFormed(t: seq<Record>) {
    UniqueSlugs(t) && AllLocalized(t) && AllKeyed(t)
  }

  /** The first row whose slug is `slug` (`where slug = ...` then `row()`). */
  function FirstIndex(t: seq<Record>, slug: string): (r: Option<nat>)
    ensures r.Some? ==> r.value < |t| && t[r.value].slug == slug
    ensures r.Some? ==> forall j :: 0 <= j < r.value ==> t[j].slug != slug
    ensures r.None? ==> forall j :: 0 <= j < |t| ==> t[j].slug != slug
  {
    if t == [] then None
    else if t[0].slug == slug then Some(0)
    else match FirstIndex(t[1..], slug)
      case None => None
      case Some(i) => Some(i + 1)
  }

  /** `exists`: some row has this slug, whether enabled or not. */
  function Exists(t: seq<Record>, slug: string): (b: bool)
    ensures b <==> exists i :: 0 <= i < |t| && t[i].slug == slug
  {
    FirstIndex(t, slug).Some?
  }

  /** The array built from a row, with name and description resolved. */
  function ViewOf(r: Record, lang: string): View
    requires HasDefaultLocale(r)
  {
    View(Resolve(r.name, lang), r.slug, r.version, r.moduleType, Resolve(r.description, lang),
      r.skipXss, r.isFrontend, r.isBackend, r.isBackendMenu, r.controllers, r.enabled, r.isCore)
  }

  /** `get($module)`. */
  function Get(t: seq<Record>, arg: SlugArg, lang: string): (g: GetResult)
    requires AllLocalized(t)
    ensures g.NullModule? <==> (arg.ArrayArg? || PhpEmpty(arg.slug) || !Exists(t, arg.slug))
    ensures g.Disabled? ==> exists i :: 0 <= i < |t| && t[i].slug == arg.slug && !t[i].enabled
    ensures g.Found? ==>
      exists i :: 0 <= i < |t| && t[i].slug == arg.slug && t[i].enabled && g.view == ViewOf(t[i], lang)
  {
    if arg.ArrayArg? || PhpEmpty(arg.slug) then NullModule
    else match FirstIndex(t, arg.slug)
      case None => NullModule
      case Some(i) => if !t[i].enabled then Disabled else Found(ViewOf(t[i], lang))
  }

  /** On a well-formed table, `get` of a stored non-empty slug is decided by
      that row alone: FALSE when it is disabled, its view otherwise. */
  lemma GetStored(t: seq<Record>, i: nat, lang: string)
    requires WellFormed(t) && i < |t| && !PhpEmpty(t[i].slug)
    ensures Get(t, Text(t[i].slug), lang) == if t[i].enabled then Found(ViewOf(t[i], lang)) else Disabled
  {
    var j := FirstIndex(t, t[i].slug);
    assert j == Some(i) by {
      assert j.Some?;
      assert !(j.value < i) && !(i < j.value);
    }
  }

  /** The view of a found module shows its stored slug and flags, and the
      name and description for the language asked for. */
  lemma FoundView(t: seq<Record>, slug: string, lang: string, i: nat)
    requires WellFormed(t) && i < |t| && t[i].slug == slug && !PhpEmpty(slug) && t[i].enabled
    ensures Get(t, Text(slug), lang).Found?
    ensures var v := Get(t, Text(slug), lang).view;
      v.slug == slug && v.enabled && v.isCore == t[i].isCore
      && v.name == Resolve(t[i].name, lang) && v.description == Resolve(t[i].description, lang)
      && v.controllers == t[i].controllers
  {
    GetStored(t, i, lang);
  }

  /** `get_module_controllers`: the controller names of the module `get`
      finds, in table order; nothing for the sentinel or FALSE. */
  function GetModuleControllers(t: seq<Record>, arg: SlugArg, lang: string): (names: seq<string>)
    requires AllLocalized(t)
    ensures !Get(t, arg, lang).Found? ==> names == []
  {
    match Get(t, arg, lang)
    case Found(v) => Names(v.controllers)
    case _ => []
  }

  /** `get_module_controller_methods`: the methods of one controller of the
      module `get` finds; nothing when the module or controller is missing. */
  function GetModuleControllerMethods(t: seq<Record>, arg: SlugArg, controller: string, lang: string): (ms: seq<string>)
    requires AllLocalized(t)
    ensures !Get(t, arg, lang).Found? ==> ms == []
  {
    match Get(t, arg, lang)
    case Found(v) =>
      (match Lookup(v.controllers, controller)
       case Some(m) => m
       case None => [])
    case _ => []
  }

  /** The controllers of a stored module are its controller names when it
      is enabled, and nothing when it is disabled. */
  lemma ControllersOfStored(t: seq<Record>, i: nat, controller: string, lang: string)
    requires WellFormed(t) && i < |t| && !PhpEmpty(t[i].slug)
    ensures GetModuleControllers(t, Text(t[i].slug), lang) ==
      if t[i].enabled then Names(t[i].controllers) else []
    ensures GetModuleControllerMethods(t, Text(t[i].slug), controller, lang) ==
      if t[i].enabled && Lookup(t[i].controllers, controller).Some?
      then Lookup(t[i].controllers, controller).value else []
  {
    GetStored(t, i, lang);
  }

  /** The `continue` tests of `get_modules`: a row is listed when it passes
      all of them. */
  predicate Keep(r: Record, p: Params, returnDisabled: bool, c: Caller) {
    && (returnDisabled || r.enabled)
    && (!p.isFrontend || r.isFrontend)
    && (!p.isBackend || (r.isBackend && c.hasAdminAccess(c.group, r.slug)))
    && (p.isCore.None? || r.isCore == p.isCore.value)
    && (p.isBackendMenu.None? || r.isBackendMenu == p.isBackendMenu.value)
  }

  /** What `get_modules` returns: the views of the rows that pass, in table
      order. */
  function Listing(t: seq<Record>, p: Params, returnDisabled: bool, c: Caller): (vs: seq<View>)
    requires AllLocalized(t)
    ensures |vs| <= |t|
  {
    if t == [] then []
    else
      var last := t[|t| - 1];
      var init := Listing(t[..|t| - 1], p, returnDisabled, c);
      if Keep(last, p, returnDisabled, c) then init + [ViewOf(last, c.lang)] else init
  }

  /** The positions of the rows `get_modules` lists. */
  function KeptIndices(t: seq<Record>, p: Params, returnDisabled: bool, c: Caller): (ix: seq<nat>)
    ensures forall k :: 0 <= k < |ix| ==> ix[k] < |t|
  {
    if t == [] then []
    else
      var init := KeptIndices(t[..|t| - 1], p, returnDisabled, c);
      if Keep(t[|t| - 1], p, returnDisabled, c) then init + [|t| - 1] else init
  }

  /** `get_modules` is an order-preserving selection: entry k of the listing
      is the view of row ix[k], the positions ix strictly increase, and every
      row that passes the tests is selected. */
  lemma ListingSelects(t: seq<Record>, p: Params, returnDisabled: bool, c: Caller)
    requires AllLocalized(t)
    ensures var vs, ix := Listing(t, p, returnDisabled, c), KeptIndices(t, p, returnDisabled, c);
      && |vs| == |ix|
      && (forall k :: 0 <= k < |ix| ==>
            Keep(t[ix[k]], p, returnDisabled, c) && vs[k] == ViewOf(t[ix[k]], c.lang))
      && (forall k, l :: 0 <= k < l < |ix| ==> ix[k] < ix[l])
      && (forall i :: 0 <= i < |t| && Keep(t[i], p, returnDisabled, c) ==> i in ix)
  {
    ListingAtIndices(t, p, returnDisabled, c);
    KeptIndicesOrdered(t, p, returnDisabled, c);
  }

  lemma {:induction false} ListingAtIndices(t: seq<Record>, p: Params, returnDisabled: bool, c: Caller)
    requires AllLocalized(t)
    ensures var vs, ix := Listing(t, p, returnDisabled, c), KeptIndices(t, p, returnDisabled, c);
      && |vs| == |ix|
      && forall k :: 0 <= k < |ix| ==> vs[k] == ViewOf(t[ix[k]], c.lang)
  {
    if t != [] {
      var init := t[..|t| - 1];
      ListingAtIndices(init, p, returnDisabled, c);
      var vs0, ix0 := Listing(init, p, returnDisabled, c), KeptIndices(init, p, returnDisabled, c);
      assert forall k :: 0 <= k < |init| ==> init[k] == t[k];
      var vs, ix := Listing(t, p, returnDisabled, c), KeptIndices(t, p, returnDisabled, c);
      assert forall k :: 0 <= k < |ix0| ==> ix[k] == ix0[k] && vs[k] == vs0[k];
    }
  }

  lemma {:induction false} KeptIndicesOrdered(t: seq<Record>, p: Params, returnDisabled: bool, c: Caller)
    ensures var ix := KeptIndices(t, p, returnDisabled, c);
      && (forall k :: 0 <= k < |ix| ==> Keep(t[ix[k]], p, returnDisabled, c))
      && (forall k, l :: 0 <= k < l < |ix| ==> ix[k] < ix[l])
      && (forall i :: 0 <= i < |t| && Keep(t[i], p, returnDisabled, c) ==> i in ix)
  {
    if t != [] {
      var init := t[..|t| - 1];
      KeptIndicesOrdered(init, p, returnDisabled, c);
      var ix0 := KeptIndices(init, p, returnDisabled, c);
      assert forall k :: 0 <= k < |init| ==> init[k] == t[k];
      var ix := KeptIndices(t, p, returnDisabled, c);
      forall k | 0 <= k < |ix0|
        ensures ix[k] == ix0[k] && Keep(t[ix[k]], p, returnDisabled, c)
      {
        assert init[ix0[k]] == t[ix0[k]];
      }
    }
  }

  /** Every listed view passes each filter of `get_modules`: no disabled
      module unless asked for, the front-end and back-end flags, the
      permission check, and the `is_core` / `is_backend_menu` values. */
  lemma ListingFilters(t: seq<Record>, p: Params, returnDisabled: bool, c: Caller)
    requires AllLocalized(t)
    ensures forall v :: v in Listing(t, p, returnDisabled, c) ==>
      && (returnDisabled || v.enabled)
      && (p.isFrontend ==> v.isFrontend)
      && (p.isBackend ==> v.isBackend && c.hasAdminAccess(c.group, v.slug))
      && (p.isCore.Some? ==> v.isCore == p.isCore.value)
      && (p.isBackendMenu.Some? ==> v.isBackendMenu == p.isBackendMenu.value)
  {
    ListingSelects(t, p, returnDisabled, c);
    var vs, ix := Listing(t, p, returnDisabled, c), KeptIndices(t, p, returnDisabled, c);
    forall v | v in vs
      ensures (returnDisabled || v.enabled) && (p.isFrontend ==> v.isFrontend)
      ensures p.isBackend ==> v.isBackend && c.hasAdminAccess(c.group, v.slug)
      ensures p.isCore.Some? ==> v.isCore == p.isCore.value
      ensures p.isBackendMenu.Some? ==> v.isBackendMenu == p.isBackendMenu.value
    {
      var k :| 0 <= k < |vs| && vs[k] == v;
      assert Keep(t[ix[k]], p, returnDisabled, c);
    }
  }

  /** With no filter and disabled modules included, `get_modules` lists
      every row, in table order. */
  lemma {:induction false} ListingEverything(t: seq<Record>, c: Caller)
    requires AllLocalized(t)
    ensures |Listing(t, NoFilter, true, c)| == |t|
    ensures forall k :: 0 <= k < |t| ==> Listing(t, NoFilter, true, c)[k] == ViewOf(t[k], c.lang)
  {
    if t != [] {
      var init := t[..|t| - 1];
      ListingEverything(init, c);
      assert forall k :: 0 <= k < |init| ==> init[k] == t[k];
    }
  }

  /** One row after `update ... set <patch>`. */
  function ApplyPatch(r: Record, p: Patch): Record {
    r.(version := if p.version.Some? then p.version.value else r.version,
       moduleType := if p.moduleType.Some? then p.moduleType.value else r.moduleType,
       skipXss := if p.skipXss.Some? then p.skipXss.value else r.skipXss,
       isFrontend := if p.isFrontend.Some? then p.isFrontend.value else r.isFrontend,
       isBackend := if p.isBackend.Some? then p.isBackend.value else r.isBackend,
       isBackendMenu := if p.isBackendMenu.Some? then p.isBackendMenu.value else r.isBackendMenu,
       enabled := if p.enabled.Some? then p.enabled.value else r.enabled,
       isCore := if p.isCore.Some? then p.isCore.value else r.isCore)
  }

  /** A patch never touches the slug, the serialized columns or the
      controllers; `enabled` follows the patch when it sets it. */
  lemma ApplyPatchKeeps(r: Record, p: Patch)
    ensures var u := ApplyPatch(r, p);
      && u.slug == r.slug && u.name == r.name && u.description == r.description
      && u.controllers == r.controllers
      && u.enabled == (if p.enabled.Some? then p.enabled.value else r.enabled)
  {
  }

  /** The table after `where('slug', slug)->update(patch)`. */
  function UpdateRows(t: seq<Record>, slug: string, p: Patch): seq<Record> {
    seq(|t|, i requires 0 <= i < |t| => if t[i].slug == slug then ApplyPatch(t[i], p) else t[i])
  }

  /** An update keeps the table well formed, changes only the rows with that
      slug, and leaves every slug where it was. */
  lemma UpdateRowsShape(t: seq<Record>, slug: string, p: Patch)
    ensures |UpdateRows(t, slug, p)| == |t|
    ensures forall i :: 0 <= i < |t| ==> UpdateRows(t, slug, p)[i].slug == t[i].slug
    ensures forall i :: 0 <= i < |t| && t[i].slug != slug ==> UpdateRows(t, slug, p)[i] == t[i]
    ensures WellFormed(t) ==> WellFormed(UpdateRows(t, slug, p))
    ensures forall s :: Exists(UpdateRows(t, slug, p), s) == Exists(t, s)
  {
    var u := UpdateRows(t, slug, p);
    forall s ensures Exists(u, s) == Exists(t, s) {
      if Exists(t, s) {
        var i :| 0 <= i < |t| && t[i].slug == s;
        assert u[i].slug == s;
      }
      if Exists(u, s) {
        var i :| 0 <= i < |u| && u[i].slug == s;
        assert t[i].slug == s;
      }
    }
  }

  /** An update of a slug no row has changes nothing. */
  lemma UpdateAbsent(t: seq<Record>, slug: string, p: Patch)
    requires !Exists(t, slug)
    ensures UpdateRows(t, slug, p) == t
  {
  }

  /** Applying the same update twice gives the table applying it once does. */
  lemma UpdateIdempotent(t: seq<Record>, slug: string, p: Patch)
    ensures UpdateRows(UpdateRows(t, slug, p), slug, p) == UpdateRows(t, slug, p)
  {
    var u := UpdateRows(t, slug, p);
    var w := UpdateRows(u, slug, p);
    forall i | 0 <= i < |t| ensures w[i] == u[i] {
      if t[i].slug == slug {
        assert u[i] == ApplyPatch(t[i], p);
        assert ApplyPatch(ApplyPatch(t[i], p), p) == ApplyPatch(t[i], p);
      }
    }
  }

  /** After `enable` of a stored non-empty slug `get` finds the module, and
      after `disable` it answers FALSE, while `exists` still holds. */
  lemma EnableDisableThenGet(t: seq<Record>, slug: string, lang: string)
    requires WellFormed(t) && Exists(t, slug) && !PhpEmpty(slug)
    ensures var on := UpdateRows(t, slug, EnabledPatch(true));
      WellFormed(on) && Get(on, Text(slug), lang).Found? && Get(on, Text(slug), lang).view.enabled
    ensures var off := UpdateRows(t, slug, EnabledPatch(false));
      WellFormed(off) && Get(off, Text(slug), lang) == Disabled && Exists(off, slug)
  {
    var i :| 0 <= i < |t| && t[i].slug == slug;
    UpdateRowsShape(t, slug, EnabledPatch(true));
    UpdateRowsShape(t, slug, EnabledPatch(false));
    var on := UpdateRows(t, slug, EnabledPatch(true));
    var off := UpdateRows(t, slug, EnabledPatch(false));
    GetStored(on, i, lang);
    GetStored(off, i, lang);
  }

  /** The table after `delete(table, array('slug' => slug))`. */
  function RemoveSlug(t: seq<Record>, slug: string): (u: seq<Record>)
    ensures |u| <= |t|
  {
    if t == [] then []
    else
      var last := t[|t| - 1];
      var init := RemoveSlug(t[..|t| - 1], slug);
      if last.slug == slug then init else init + [last]
  }

  /** Delete keeps exactly the rows whose slug differs, so no row with that
      slug is left. */
  lemma {:induction false} RemoveSlugMembers(t: seq<Record>, slug: string)
    ensures forall r :: r in RemoveSlug(t, slug) <==> r in t && r.slug != slug
    ensures !Exists(RemoveSlug(t, slug), slug)
  {
    if t != [] {
      var init, last := t[..|t| - 1], t[|t| - 1];
      RemoveSlugMembers(init, slug);
      assert t == init + [last];
    }
    var u := RemoveSlug(t, slug);
    assert forall i :: 0 <= i < |u| ==> u[i] in u;
  }

  /** Deleting a slug no row has changes nothing. */
  lemma {:induction false} RemoveSlugAbsent(t: seq<Record>, slug: string)
    requires !Exists(t, slug)
    ensures RemoveSlug(t, slug) == t
  {
    if t != [] {
      var init, last := t[..|t| - 1], t[|t| - 1];
      forall j | 0 <= j < |init| ensures init[j].slug != slug {
        assert init[j] == t[j];
      }
      assert !Exists(init, slug);
      RemoveSlugAbsent(init, slug);
      assert last.slug != slug;
      assert RemoveSlug(t, slug) == init + [last];
      assert init + [last] == t;
    }
  }

  /** Delete keeps the others in their order: the result is the table with
      the rows of that slug filtered out, position by position. */
  lemma {:induction false} RemoveSlugOrder(t: seq<Record>, slug: string, i: nat, j: nat)
    requires i < j < |t| && t[i].slug != slug && t[j].slug != slug
    ensures exists a, b ::
      (0 <= a < b < |RemoveSlug(t, slug)| && RemoveSlug(t, slug)[a] == t[i] && RemoveSlug(t, slug)[b] == t[j])
  {
    var init, last := t[..|t| - 1], t[|t| - 1];
    var u0, u := RemoveSlug(init, slug), RemoveSlug(t, slug);
    assert u == if last.slug == slug then u0 else u0 + [last];
    if j < |t| - 1 {
      RemoveSlugOrder(init, slug, i, j);
      var a, b :| 0 <= a < b < |u0| && u0[a] == init[i] && u0[b] == init[j];
      assert u[a] == t[i] && u[b] == t[j];
    } else {
      RemoveSlugMembers(init, slug);
      assert init[i] in init;
      var a :| 0 <= a < |u0| && u0[a] == t[i];
      assert u[a] == t[i] && u[|u0|] == t[j];
    }
  }

  /** Delete keeps the table well formed. */
  lemma RemoveSlugWellFormed(t: seq<Record>, slug: string)
    requires WellFormed(t)
    ensures WellFormed(RemoveSlug(t, slug))
  {
    var u := RemoveSlug(t, slug);
    RemoveSlugMembers(t, slug);
    forall i | 0 <= i < |u| ensures HasDefaultLocale(u[i]) && UniqueNames(u[i].controllers) {
      assert u[i] in u;
    }
    RemoveSlugUnique(t, slug);
  }

  lemma {:induction false} RemoveSlugUnique(t: seq<Record>, slug: string)
    requires UniqueSlugs(t)
    ensures UniqueSlugs(RemoveSlug(t, slug))
  {
    if t != [] {
      var init, last := t[..|t| - 1], t[|t| - 1];
      assert forall j :: 0 <= j < |init| ==> init[j] == t[j];
      RemoveSlugUnique(init, slug);
      RemoveSlugMembers(init, slug);
      var u0 := RemoveSlug(init, slug);
      if last.slug != slug {
        var u := u0 + [last];
        forall a | 0 <= a < |u0| ensures u0[a].slug != last.slug {
          assert u0[a] in u0;
          var m :| 0 <= m < |init| && init[m] == u0[a];
        }
      }
    }
  }

  /** On a well-formed table a stored slug is one row, and delete drops
      exactly that one. */
  lemma {:induction false} RemoveSlugCount(t: seq<Record>, slug: string)
    requires UniqueSlugs(t) && Exists(t, slug)
    ensures |RemoveSlug(t, slug)| == |t| - 1
  {
    var init, last := t[..|t| - 1], t[|t| - 1];
    assert forall j :: 0 <= j < |init| ==> init[j] == t[j];
    if last.slug == slug {
      assert !Exists(init, slug);
      RemoveSlugAbsent(init, slug);
    } else {
      var j :| 0 <= j < |t| && t[j].slug == slug;
      assert j < |init|;
      RemoveSlugCount(init, slug);
    }
  }

  /** The table after `insert`: the unique key on `slug` rejects a row whose
      slug is already stored. */
  function AddRow(t: seq<Record>, r: Record): seq<Record> {
    if Exists(t, r.slug) then t else t + [r]
  }

  /** Insert appends a row with a new slug and rejects one whose slug is
      stored; it keeps the table well formed, the stored slugs become the old
      ones plus the new one, and a new non-empty slug that is enabled is then
      found by `get`. */
  lemma AddRowSpec(t: seq<Record>, r: Record, lang: string)
    requires WellFormed(t) && HasDefaultLocale(r) && UniqueNames(r.controllers)
    ensures !Exists(t, r.slug) ==> AddRow(t, r) == t + [r]
    ensures Exists(t, r.slug) ==> AddRow(t, r) == t
    ensures WellFormed(AddRow(t, r))
    ensures forall s :: Exists(AddRow(t, r), s) <==> Exists(t, s) || s == r.slug
    ensures !Exists(t, r.slug) && !PhpEmpty(r.slug) && r.enabled ==>
      Get(AddRow(t, r), Text(r.slug), lang) == Found(ViewOf(r, lang))
  {
    var u := AddRow(t, r);
    if !Exists(t, r.slug) {
      assert u[|t|] == r;
      assert forall j :: 0 <= j < |t| ==> u[j] == t[j];
      forall s | Exists(t, s) ensures Exists(u, s) {
        var j :| 0 <= j < |t| && t[j].slug == s;
        assert u[j].slug == s;
      }
      assert WellFormed(u);
      if !PhpEmpty(r.slug) {
        GetStored(u, |t|, lang);
      }
    }
  }
}
