/**
  The module descriptor read from a module's `details.xml` manifest. The XML
  reading itself is not modelled: a manifest arrives as an already-read
  element tree (RawManifest), and Parse gives the descriptor the registry
  works with.
 */
module Manifest {
  import opened Optional
  import opened Locale

  /** One entry of the controllers table: the controller's name and its
      methods in declaration order. */
  datatype Controller = Controller(name: string, methods: seq<string>)

  /** A `controllers` element as read: its `name` attribute and the text of
      each `method` child, in document order. */
  datatype ControllerNode = ControllerNode(nameAttr: string, methodTexts: seq<string>)

  /** The manifest's elements as read. A flag element is given by the number
      PHP reads from its text, or None when it is absent or not numeric. */
  datatype RawManifest = RawManifest(
    name: Localized,
    description: Localized,
    version: string,
    moduleType: string,
    skipXss: Option<real>,
    isFrontend: Option<real>,
    isBackend: Option<real>,
    isBackendMenu: Option<real>,
    controllers: seq<ControllerNode>,
    install: Option<string>,
    uninstall: Option<string>)

  /** The array `_parse_xml` returns. */
  datatype Descriptor = Descriptor(
    name: Localized,
    description: Localized,
    version: string,
    moduleType: string,
    skipXss: bool,
    isFrontend: bool,
    isBackend: bool,
    isBackendMenu: bool,
    controllers: seq<Controller>,
    install: Option<string>,
    uninstall: Option<string>)

  /** A flag element counts as set exactly when it compares equal to 1. */
  predicate IsOne(flag: Option<real>) {
    flag == Some(1.0)
  }

  /** The controllers table viewed as the keys of a PHP array, in order. */
  function Names(cs: seq<Controller>): (r: seq<string>)
    ensures |r| == |cs| && forall i :: 0 <= i < |cs| ==> r[i] == cs[i].name
  {
    if cs == [] then [] else [cs[0].name] + Names(cs[1..])
  }

  predicate UniqueNames(cs: seq<Controller>) {
    forall i, j :: 0 <= i < j < |cs| ==> cs[i].name != cs[j].name
  }

  /** Position of the key `n` in the controllers table, if present. */
  function IndexOfName(cs: seq<Controller>, n: string): (r: Option<nat>)
    ensures r.Some? ==> r.value < |cs| && cs[r.value].name == n
    ensures r.Some? ==> forall j :: 0 <= j < r.value ==> cs[j].name != n
    ensures r.None? ==> forall j :: 0 <= j < |cs| ==> cs[j].name != n
  {
    if cs == [] then None
    else if cs[0].name == n then Some(0)
    else match IndexOfName(cs[1..], n)
      case None => None
      case Some(i) => Some(i + 1)
  }

  /** `$controllers[$n]['methods']`, or None when there is no key `n`. */
  function Lookup(cs: seq<Controller>, n: string): Option<seq<string>> {
    match IndexOfName(cs, n)
    case None => None
    case Some(i) => Some(cs[i].methods)
  }

  /** There are no methods exactly when `n` is not a key; otherwise they are
      the methods of an entry named `n`. */
  lemma LookupSpec(cs: seq<Controller>, n: string)
    ensures Lookup(cs, n).None? <==> n !in Names(cs)
    ensures Lookup(cs, n).Some? ==>
      exists i :: 0 <= i < |cs| && cs[i].name == n && cs[i].methods == Lookup(cs, n).value
  {
    if n in Names(cs) {
      var i :| 0 <= i < |cs| && Names(cs)[i] == n;
      assert cs[i].name == n;
    }
  }

  /** `$controllers[$c->name] = $c`: an existing key keeps its position and
      takes the new value; a new key goes to the end. */
  function Put(cs: seq<Controller>, c: Controller): (r: seq<Controller>)
    ensures UniqueNames(cs) ==> UniqueNames(r)
    ensures Lookup(r, c.name) == Some(c.methods)
    ensures forall n :: n != c.name ==> Lookup(r, n) == Lookup(cs, n)
    ensures Names(r) == if c.name in Names(cs) then Names(cs) else Names(cs) + [c.name]
  {
    match IndexOfName(cs, c.name)
    case Some(i) =>
      PutExisting(cs, c, i);
      cs[i := c]
    case None =>
      PutNew(cs, c);
      cs + [c]
  }

  /** Overwriting the entry at the key's position keeps every position. */
  lemma PutExisting(cs: seq<Controller>, c: Controller, i: nat)
    requires IndexOfName(cs, c.name) == Some(i)
    ensures var r := cs[i := c];
      && (UniqueNames(cs) ==> UniqueNames(r))
      && Lookup(r, c.name) == Some(c.methods)
      && (forall n :: n != c.name ==> Lookup(r, n) == Lookup(cs, n))
      && c.name in Names(cs) && Names(r) == Names(cs)
  {
    var r := cs[i := c];
    assert forall n :: IndexOfName(r, n) == IndexOfName(cs, n) by {
      forall n ensures IndexOfName(r, n) == IndexOfName(cs, n) {
        SameIndex(r, cs, n);
      }
    }
    assert Names(cs)[i] == c.name;
    assert Names(r) == Names(cs);
  }

  /** A new key goes to the end and leaves the other keys where they were. */
  lemma PutNew(cs: seq<Controller>, c: Controller)
    requires IndexOfName(cs, c.name) == None
    ensures var r := cs + [c];
      && (UniqueNames(cs) ==> UniqueNames(r))
      && Lookup(r, c.name) == Some(c.methods)
      && (forall n :: n != c.name ==> Lookup(r, n) == Lookup(cs, n))
      && c.name !in Names(cs) && Names(r) == Names(cs) + [c.name]
  {
    var r := cs + [c];
    assert Names(r) == Names(cs) + [c.name];
    assert c.name !in Names(cs);
    var x := IndexOfName(r, c.name);
    assert r[|cs|].name == c.name;
    assert forall j :: 0 <= j < |cs| ==> r[j] == cs[j];
    assert x.Some? && x.value == |cs|;
    assert forall n :: n != c.name ==> IndexOfName(r, n) == IndexOfName(cs, n) by {
      forall n | n != c.name ensures IndexOfName(r, n) == IndexOfName(cs, n) {
        PrefixIndex(cs, c, n);
      }
    }
  }

  /** Two tables that agree, entry by entry, on which entries carry the key
      `n` and have the same length, put `n` at the same position. */
  lemma SameIndex(a: seq<Controller>, b: seq<Controller>, n: string)
    requires |a| == |b|
    requires forall j :: 0 <= j < |a| ==> (a[j].name == n <==> b[j].name == n)
    ensures IndexOfName(a, n) == IndexOfName(b, n)
  {
    var x, y := IndexOfName(a, n), IndexOfName(b, n);
    if x.Some? && y.Some? {
      assert !(x.value < y.value) && !(y.value < x.value);
    }
  }

  lemma PrefixIndex(cs: seq<Controller>, c: Controller, n: string)
    requires n != c.name
    ensures IndexOfName(cs + [c], n) == IndexOfName(cs, n)
  {
    var a := cs + [c];
    var x, y := IndexOfName(a, n), IndexOfName(cs, n);
    if y.Some? {
      assert a[y.value] == cs[y.value];
      assert x.Some? && !(x.value < y.value) && !(y.value < x.value);
    } else {
      assert forall j :: 0 <= j < |a| ==> a[j].name != n by {
        forall j | 0 <= j < |a| ensures a[j].name != n {
          if j < |cs| { assert a[j] == cs[j]; }
        }
      }
    }
  }

  /** The loop of `_parse_xml` over the `controllers` elements. */
  function Collect(nodes: seq<ControllerNode>): (r: seq<Controller>)
    ensures UniqueNames(r)
  {
    if nodes == [] then []
    else
      var last := nodes[|nodes| - 1];
      Put(Collect(nodes[..|nodes| - 1]), Controller(last.nameAttr, last.methodTexts))
  }

  function NodeNames(nodes: seq<ControllerNode>): (r: seq<string>)
    ensures |r| == |nodes| && forall i :: 0 <= i < |nodes| ==> r[i] == nodes[i].nameAttr
  {
    if nodes == [] then [] else NodeNames(nodes[..|nodes| - 1]) + [nodes[|nodes| - 1].nameAttr]
  }

  /** The distinct elements of `xs`, each at the place of its first occurrence. */
  function Dedup(xs: seq<string>): (r: seq<string>)
    ensures forall x :: x in r <==> x in xs
    ensures forall i, j :: 0 <= i < j < |r| ==> r[i] != r[j]
  {
    if xs == [] then []
    else
      var init := Dedup(xs[..|xs| - 1]);
      assert forall x :: x in xs <==> x in xs[..|xs| - 1] || x == xs[|xs| - 1];
      if xs[|xs| - 1] in init then init else init + [xs[|xs| - 1]]
  }

  /** The controller names come out once each, in order of first appearance. */
  lemma {:induction false} CollectNames(nodes: seq<ControllerNode>)
    ensures Names(Collect(nodes)) == Dedup(NodeNames(nodes))
  {
    if nodes != [] {
      var init := nodes[..|nodes| - 1];
      CollectNames(init);
      assert NodeNames(nodes)[..|nodes| - 1] == NodeNames(init);
      assert forall x :: x in Names(Collect(init)) <==> x in NodeNames(init);
    }
  }

  /** A repeated controller name takes the methods of its last element. */
  lemma {:induction false} CollectLastWins(nodes: seq<ControllerNode>, k: nat)
    requires k < |nodes|
    requires forall j :: k < j < |nodes| ==> nodes[j].nameAttr != nodes[k].nameAttr
    ensures Lookup(Collect(nodes), nodes[k].nameAttr) == Some(nodes[k].methodTexts)
    decreases |nodes|
  {
    if k < |nodes| - 1 {
      var init := nodes[..|nodes| - 1];
      CollectLastWins(init, k);
    }
  }

  /** A name no element carries has no entry. */
  lemma {:induction false} CollectAbsent(nodes: seq<ControllerNode>, n: string)
    requires forall j :: 0 <= j < |nodes| ==> nodes[j].nameAttr != n
    ensures Lookup(Collect(nodes), n) == None
  {
    if nodes != [] {
      CollectAbsent(nodes[..|nodes| - 1], n);
    }
  }

  /** `_parse_xml`: flags become booleans, the controllers become a table
      keyed by name; everything else is carried over as read. */
  function Parse(raw: RawManifest): (d: Descriptor)
    ensures d.name == raw.name && d.description == raw.description
    ensures d.version == raw.version && d.moduleType == raw.moduleType
    ensures d.skipXss == IsOne(raw.skipXss) && d.isFrontend == IsOne(raw.isFrontend)
    ensures d.isBackend == IsOne(raw.isBackend) && d.isBackendMenu == IsOne(raw.isBackendMenu)
    ensures d.controllers == Collect(raw.controllers) && UniqueNames(d.controllers)
    ensures d.install == raw.install && d.uninstall == raw.uninstall
  {
    Descriptor(raw.name, raw.description, raw.version, raw.moduleType,
      IsOne(raw.skipXss), IsOne(raw.isFrontend), IsOne(raw.isBackend), IsOne(raw.isBackendMenu),
      Collect(raw.controllers), raw.install, raw.uninstall)
  }
}
