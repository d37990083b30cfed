/**
 * The GATT object tree the daemon exports: an application holding
 * services, services holding characteristics, characteristics holding
 * descriptors. Every object's path is built from its parent's path and
 * its index among its siblings; child lists only ever grow. BlueZ reads
 * the tree through `GetManagedObjects` and each object's `GetAll`.
 *
 * The objects are classes whose child lists the `Add...` methods extend in
 * place; `Node()` takes a value snapshot of an object and everything under
 * it, and the properties and the flattening are stated on those values.
 */
module Gatt {
  import opened Wrappers
  import opened Text
  import opened DBus

  const SERVICE_PATH_BASE: string := "/com/pisugar/wifi/service"

  /** `base + str(index)`: how every object path in the tree is formed. */
  function Indexed(base: string, index: nat): (r: string)
  {
    base + NatToString(index)
  }

  function ServicePath(index: nat): (r: string)
  {
    Indexed(SERVICE_PATH_BASE, index)
  }

  function ChrcPath(servicePath: string, index: nat): (r: string)
  {
    Indexed(servicePath + "/char", index)
  }

  function DescPath(chrcPath: string, index: nat): (r: string)
  {
    Indexed(chrcPath + "/desc", index)
  }

  /** The parent part of an indexed path is a strict prefix of it, and only digits follow it. */
  lemma IndexedExtends(base: string, index: nat)
    ensures var p := Indexed(base, index);
      |base| < |p| && p[..|base|] == base
      && forall k :: |base| <= k < |p| ==> IsDigit(p[k])
  {
    var p := Indexed(base, index);
    forall k | |base| <= k < |p|
      ensures IsDigit(p[k])
    {
      assert p[k] == NatToString(index)[k - |base|];
    }
  }

  /** Siblings with different indices get different paths. */
  lemma IndexedInjective(base: string, i: nat, j: nat)
    requires Indexed(base, i) == Indexed(base, j)
    ensures i == j
  {
    assert NatToString(i) == Indexed(base, i)[|base|..];
    assert NatToString(j) == Indexed(base, j)[|base|..];
    NatToStringInjective(i, j);
  }

  /** A service's path is the service base followed by the index's digits. */
  lemma ServicePathUnderBase(index: nat)
    ensures var p := ServicePath(index);
      |SERVICE_PATH_BASE| < |p| && p[..|SERVICE_PATH_BASE|] == SERVICE_PATH_BASE
      && forall k :: |SERVICE_PATH_BASE| <= k < |p| ==> IsDigit(p[k])
  {
    IndexedExtends(SERVICE_PATH_BASE, index);
  }

  /**
   * A characteristic's path is its service's path, `/char` and digits; a
   * descriptor's is its characteristic's path, `/desc` and digits.
   */
  lemma ChildPathsExtendParent(parent: string, index: nat)
    ensures |parent| + 5 < |ChrcPath(parent, index)| && ChrcPath(parent, index)[..|parent| + 5] == parent + "/char"
    ensures |parent| + 5 < |DescPath(parent, index)| && DescPath(parent, index)[..|parent| + 5] == parent + "/desc"
    ensures |parent| < |ChrcPath(parent, index)| && ChrcPath(parent, index)[..|parent|] == parent
    ensures |parent| < |DescPath(parent, index)| && DescPath(parent, index)[..|parent|] == parent
  {
    IndexedExtends(parent + "/char", index);
    IndexedExtends(parent + "/desc", index);
    assert ChrcPath(parent, index)[..|parent|] == (parent + "/char")[..|parent|];
    assert DescPath(parent, index)[..|parent|] == (parent + "/desc")[..|parent|];
  }

  /** A descriptor's path is never the path of a characteristic of the same service. */
  lemma DescNeverChrc(servicePath: string, i: nat, j: nat, k: nat)
    ensures DescPath(ChrcPath(servicePath, i), j) != ChrcPath(servicePath, k)
  {
    var c := ChrcPath(servicePath, i);
    var d := DescPath(c, j);
    var base := servicePath + "/char";
    IndexedExtends(base, i);
    IndexedExtends(base, k);
    IndexedExtends(c + "/desc", j);
    assert d[|c|] == '/' && !IsDigit(d[|c|]);
    assert |base| <= |c| < |d|;
  }

  /** Value snapshots of the objects, as `get_properties` and `GetManagedObjects` see them. */
  datatype DescNode = DescNode(path: string, uuid: string, flags: seq<string>, chrcPath: string)
  datatype ChrcNode = ChrcNode(path: string, uuid: string, flags: seq<string>, servicePath: string, descs: seq<DescNode>)
  datatype ServiceNode = ServiceNode(path: string, uuid: string, primary: bool, chrcs: seq<ChrcNode>)

  function DescPaths(ds: seq<DescNode>): (r: seq<string>)
    ensures |r| == |ds| && forall i :: 0 <= i < |ds| ==> r[i] == ds[i].path
  {
    seq(|ds|, i requires 0 <= i < |ds| => ds[i].path)
  }

  function ChrcPaths(cs: seq<ChrcNode>): (r: seq<string>)
    ensures |r| == |cs| && forall i :: 0 <= i < |cs| ==> r[i] == cs[i].path
  {
    seq(|cs|, i requires 0 <= i < |cs| => cs[i].path)
  }

  /** A service's `get_properties`: one interface, with its UUID, primary flag and characteristic paths. */
  function ServiceInterfaces(s: ServiceNode): (r: Interfaces)
  {
    map[GATT_SERVICE_IFACE := map[
      "UUID" := Str(s.uuid),
      "Primary" := Boolean(s.primary),
      "Characteristics" := PathArray(ChrcPaths(s.chrcs))]]
  }

  /** A characteristic's `get_properties`: one interface, with its service, UUID, flags and descriptor paths. */
  function ChrcInterfaces(c: ChrcNode): (r: Interfaces)
  {
    map[GATT_CHRC_IFACE := map[
      "Service" := ObjectPath(c.servicePath),
      "UUID" := Str(c.uuid),
      "Flags" := StrArray(c.flags),
      "Descriptors" := PathArray(DescPaths(c.descs))]]
  }

  /** A descriptor's `get_properties`: one interface, with its characteristic, UUID and flags. */
  function DescInterfaces(d: DescNode): (r: Interfaces)
  {
    map[GATT_DESC_IFACE := map[
      "Characteristic" := ObjectPath(d.chrcPath),
      "UUID" := Str(d.uuid),
      "Flags" := StrArray(d.flags)]]
  }

  /** A service lists one interface, with its UUID, primary flag and the paths of its characteristics in order. */
  lemma ServiceProperties(s: ServiceNode)
    ensures var r := ServiceInterfaces(s);
      && r.Keys == {GATT_SERVICE_IFACE}
      && r[GATT_SERVICE_IFACE].Keys == {"UUID", "Primary", "Characteristics"}
      && r[GATT_SERVICE_IFACE]["Characteristics"].paths == ChrcPaths(s.chrcs)
  {
  }

  /** A characteristic lists one interface, with its service's path, UUID, flags and its descriptors' paths in order. */
  lemma ChrcProperties(c: ChrcNode)
    ensures var r := ChrcInterfaces(c);
      && r.Keys == {GATT_CHRC_IFACE}
      && r[GATT_CHRC_IFACE].Keys == {"Service", "UUID", "Flags", "Descriptors"}
      && r[GATT_CHRC_IFACE]["Service"] == ObjectPath(c.servicePath)
      && r[GATT_CHRC_IFACE]["Descriptors"].paths == DescPaths(c.descs)
  {
  }

  /** A descriptor lists one interface, with its characteristic's path, UUID and flags. */
  lemma DescProperties(d: DescNode)
    ensures var r := DescInterfaces(d);
      && r.Keys == {GATT_DESC_IFACE}
      && r[GATT_DESC_IFACE].Keys == {"Characteristic", "UUID", "Flags"}
      && r[GATT_DESC_IFACE]["Characteristic"] == ObjectPath(d.chrcPath)
  {
  }

  /**
   * `Service.GetAll(interface)`: the properties `get_properties` lists under
   * that interface, and `InvalidArgs` for any interface it does not list.
   */
  function ServiceGetAll(s: ServiceNode, iface: string): (r: Result<Properties, Error>)
    ensures r.Success? <==> iface in ServiceInterfaces(s)
    ensures r.Success? ==> r.value == ServiceInterfaces(s)[iface]
    ensures r.Failure? ==> r.error == InvalidArgs
  {
    if iface != GATT_SERVICE_IFACE then Failure(InvalidArgs)
    else Success(ServiceInterfaces(s)[GATT_SERVICE_IFACE])
  }

  /** `Characteristic.GetAll(interface)`, likewise. */
  function ChrcGetAll(c: ChrcNode, iface: string): (r: Result<Properties, Error>)
    ensures r.Success? <==> iface in ChrcInterfaces(c)
    ensures r.Success? ==> r.value == ChrcInterfaces(c)[iface]
    ensures r.Failure? ==> r.error == InvalidArgs
  {
    if iface != GATT_CHRC_IFACE then Failure(InvalidArgs)
    else Success(ChrcInterfaces(c)[GATT_CHRC_IFACE])
  }

  /** `Descriptor.GetAll(interface)`, likewise. */
  function DescGetAll(d: DescNode, iface: string): (r: Result<Properties, Error>)
    ensures r.Success? <==> iface in DescInterfaces(d)
    ensures r.Success? ==> r.value == DescInterfaces(d)[iface]
    ensures r.Failure? ==> r.error == InvalidArgs
  {
    if iface != GATT_DESC_IFACE then Failure(InvalidArgs)
    else Success(DescInterfaces(d)[GATT_DESC_IFACE])
  }

  /** One entry of the `GetManagedObjects` reply: an object path and its interfaces. */
  type Entry = (string, Interfaces)

  /** The entries of some descriptors, in list order. */
  function DescEntries(ds: seq<DescNode>): seq<Entry>
    decreases |ds|
  {
    if ds == [] then []
    else
      var d := ds[|ds| - 1];
      DescEntries(ds[..|ds| - 1]) + [(d.path, DescInterfaces(d))]
  }

  /** The entries of some characteristics: each one, then its descriptors. */
  function ChrcEntries(cs: seq<ChrcNode>): seq<Entry>
    decreases |cs|
  {
    if cs == [] then []
    else
      var c := cs[|cs| - 1];
      ChrcEntries(cs[..|cs| - 1]) + [(c.path, ChrcInterfaces(c))] + DescEntries(c.descs)
  }

  /** The depth-first flattening of the tree: each service, then its characteristics. */
  function Entries(ss: seq<ServiceNode>): seq<Entry>
    decreases |ss|
  {
    if ss == [] then []
    else
      var s := ss[|ss| - 1];
      Entries(ss[..|ss| - 1]) + [(s.path, ServiceInterfaces(s))] + ChrcEntries(s.chrcs)
  }

  /** Assigning the entries into dictionary `m` in order: a later entry for a path wins. */
  function Assign(m: map<string, Interfaces>, es: seq<Entry>): map<string, Interfaces>
    decreases |es|
  {
    if es == [] then m
    else Assign(m, es[..|es| - 1])[es[|es| - 1].0 := es[|es| - 1].1]
  }

  /** The dictionary that assigning the entries into an empty one builds. */
  function ToMap(es: seq<Entry>): map<string, Interfaces> {
    Assign(map[], es)
  }

  function EntryPaths(es: seq<Entry>): (r: seq<string>)
    ensures |r| == |es| && forall i :: 0 <= i < |es| ==> r[i] == es[i].0
  {
    seq(|es|, i requires 0 <= i < |es| => es[i].0)
  }

  predicate Distinct(ps: seq<string>) {
    forall i, j :: 0 <= i < j < |ps| ==> ps[i] != ps[j]
  }

  lemma DescEntriesSnoc(ds: seq<DescNode>, d: DescNode)
    ensures DescEntries(ds + [d]) == DescEntries(ds) + [(d.path, DescInterfaces(d))]
  {
    assert (ds + [d])[..|ds|] == ds;
  }

  lemma ChrcEntriesSnoc(cs: seq<ChrcNode>, c: ChrcNode)
    ensures ChrcEntries(cs + [c]) == ChrcEntries(cs) + [(c.path, ChrcInterfaces(c))] + DescEntries(c.descs)
  {
    assert (cs + [c])[..|cs|] == cs;
  }

  lemma EntriesSnoc(ss: seq<ServiceNode>, s: ServiceNode)
    ensures Entries(ss + [s]) == Entries(ss) + [(s.path, ServiceInterfaces(s))] + ChrcEntries(s.chrcs)
  {
    assert (ss + [s])[..|ss|] == ss;
  }

  lemma TakeOneMore<T>(s: seq<T>, k: nat)
    requires k < |s|
    ensures s[..k + 1] == s[..k] + [s[k]]
  {
  }

  lemma AssignSnoc(m: map<string, Interfaces>, es: seq<Entry>, e: Entry)
    ensures Assign(m, es + [e]) == Assign(m, es)[e.0 := e.1]
  {
    assert (es + [e])[..|es|] == es;
  }

  /** Assigning two runs of entries is assigning the first, then the second. */
  lemma {:induction false} AssignAppend(m: map<string, Interfaces>, a: seq<Entry>, b: seq<Entry>)
    ensures Assign(m, a + b) == Assign(Assign(m, a), b)
    decreases |b|
  {
    if b == [] {
      assert a + b == a;
    } else {
      var n := |b| - 1;
      assert a + b == (a + b[..n]) + [b[n]];
      assert b == b[..n] + [b[n]];
      AssignSnoc(m, a + b[..n], b[n]);
      AssignSnoc(Assign(m, a), b[..n], b[n]);
      AssignAppend(m, a, b[..n]);
    }
  }

  /** The dictionary holds exactly the paths of the entries. */
  lemma {:induction false} ToMapKeys(es: seq<Entry>)
    ensures ToMap(es).Keys == set i | 0 <= i < |es| :: es[i].0
    decreases |es|
  {
    if es != [] {
      var n := |es| - 1;
      var init := es[..n];
      ToMapKeys(init);
      assert ToMap(es) == ToMap(init)[es[n].0 := es[n].1];
      assert forall i :: 0 <= i < n ==> init[i] == es[i];
      assert (set i | 0 <= i < |es| :: es[i].0) == (set i | 0 <= i < n :: init[i].0) + {es[n].0};
    }
  }

  /**
   * When no two entries share a path, the dictionary has one key per
   * entry and maps each path to its own entry's interfaces.
   */
  lemma {:induction false} ToMapDistinct(es: seq<Entry>)
    requires Distinct(EntryPaths(es))
    ensures |ToMap(es).Keys| == |es|
    ensures forall i :: 0 <= i < |es| ==> es[i].0 in ToMap(es) && ToMap(es)[es[i].0] == es[i].1
    decreases |es|
  {
    if es != [] {
      var n := |es| - 1;
      var init := es[..n];
      DistinctInit(es);
      ToMapDistinct(init);
      ToMapKeys(init);
      assert ToMap(es) == ToMap(init)[es[n].0 := es[n].1];
      assert es[n].0 !in ToMap(init).Keys by {
        forall i | 0 <= i < n ensures init[i].0 != es[n].0 { assert init[i] == es[i]; }
      }
      forall i | 0 <= i < n
        ensures es[i].0 in ToMap(es) && ToMap(es)[es[i].0] == es[i].1
      {
        assert init[i] == es[i];
      }
    }
  }

  /** Without its last entry, distinct entries stay distinct, and none shares the last one's path. */
  lemma DistinctInit(es: seq<Entry>)
    requires |es| > 0 && Distinct(EntryPaths(es))
    ensures Distinct(EntryPaths(es[..|es| - 1]))
    ensures forall i :: 0 <= i < |es| - 1 ==> es[i].0 != es[|es| - 1].0
  {
    var n := |es| - 1;
    var init := es[..n];
    forall i, j | 0 <= i < j < n ensures EntryPaths(init)[i] != EntryPaths(init)[j] {
      assert EntryPaths(es)[i] != EntryPaths(es)[j];
    }
    forall i | 0 <= i < n ensures es[i].0 != es[n].0 {
      assert EntryPaths(es)[i] != EntryPaths(es)[n];
    }
  }

  class Descriptor {
    const path: string
    const uuid: string
    const flags: seq<string>
    const chrcPath: string

    constructor(index: nat, uuid: string, flags: seq<string>, chrc: Characteristic)
      ensures path == DescPath(chrc.path, index) && chrcPath == chrc.path
      ensures this.uuid == uuid && this.flags == flags
    {
      path := DescPath(chrc.path, index);
      this.uuid := uuid;
      this.flags := flags;
      chrcPath := chrc.path;
    }

    function Node(): DescNode {
      DescNode(path, uuid, flags, chrcPath)
    }
  }

  function DescNodes(ds: seq<Descriptor>): (r: seq<DescNode>)
    ensures |r| == |ds| && forall i :: 0 <= i < |ds| ==> r[i] == ds[i].Node()
  {
    seq(|ds|, i requires 0 <= i < |ds| => ds[i].Node())
  }

  class Characteristic {
    const path: string
    const uuid: string
    const flags: seq<string>
    const servicePath: string
    var descriptors: seq<Descriptor>

    constructor(index: nat, uuid: string, flags: seq<string>, service: Service)
      ensures path == ChrcPath(service.path, index) && servicePath == service.path
      ensures this.uuid == uuid && this.flags == flags && descriptors == []
    {
      path := ChrcPath(service.path, index);
      this.uuid := uuid;
      this.flags := flags;
      servicePath := service.path;
      descriptors := [];
    }

    function Node(): ChrcNode
      reads this
    {
      ChrcNode(path, uuid, flags, servicePath, DescNodes(descriptors))
    }

    /** `add_descriptor`: the list only grows, at its end. */
    method AddDescriptor(d: Descriptor)
      modifies this
      ensures descriptors == old(descriptors) + [d]
    {
      descriptors := descriptors + [d];
    }

    /** `get_descriptor_paths`: the descriptors' paths, in the order they were added. */
    method GetDescriptorPaths() returns (result: seq<string>)
      ensures result == DescPaths(Node().descs)
    {
      result := [];
      var i := 0;
      while i < |descriptors|
        invariant 0 <= i <= |descriptors|
        invariant |result| == i
        invariant forall k :: 0 <= k < i ==> result[k] == descriptors[k].path
      {
        result := result + [descriptors[i].path];
        i := i + 1;
      }
    }
  }

  function ChrcNodes(cs: seq<Characteristic>): (r: seq<ChrcNode>)
    reads set c | c in cs
    decreases |cs|
    ensures |r| == |cs| && forall i :: 0 <= i < |cs| ==> r[i] == cs[i].Node()
  {
    if cs == [] then [] else ChrcNodes(cs[..|cs| - 1]) + [cs[|cs| - 1].Node()]
  }

  class Service {
    const path: string
    const uuid: string
    const primary: bool
    var characteristics: seq<Characteristic>

    constructor(index: nat, uuid: string, primary: bool)
      ensures path == ServicePath(index) && this.uuid == uuid && this.primary == primary
      ensures characteristics == []
    {
      path := ServicePath(index);
      this.uuid := uuid;
      this.primary := primary;
      characteristics := [];
    }

    function Node(): ServiceNode
      reads this, set c | c in characteristics
    {
      ServiceNode(path, uuid, primary, ChrcNodes(characteristics))
    }

    /** `add_characteristic`: the list only grows, at its end. */
    method AddCharacteristic(c: Characteristic)
      modifies this
      ensures characteristics == old(characteristics) + [c]
    {
      characteristics := characteristics + [c];
    }

    /** `get_characteristic_paths`: the characteristics' paths, in the order they were added. */
    method GetCharacteristicPaths() returns (result: seq<string>)
      ensures result == ChrcPaths(Node().chrcs)
    {
      result := [];
      var i := 0;
      while i < |characteristics|
        invariant 0 <= i <= |characteristics|
        invariant |result| == i
        invariant forall k :: 0 <= k < i ==> result[k] == characteristics[k].path
      {
        result := result + [characteristics[i].path];
        i := i + 1;
      }
    }
  }

  /** Everything a list of services reads: the services and their characteristics. */
  function ServicesFrame(ss: seq<Service>): set<object>
    reads set s | s in ss
  {
    (set s | s in ss) + (set s, c | s in ss && c in s.characteristics :: c)
  }

  function ServiceNodes(ss: seq<Service>): (r: seq<ServiceNode>)
    reads ServicesFrame(ss)
    decreases |ss|
    ensures |r| == |ss| && forall i :: 0 <= i < |ss| ==> r[i] == ss[i].Node()
  {
    if ss == [] then [] else ServiceNodes(ss[..|ss| - 1]) + [ss[|ss| - 1].Node()]
  }

  class Application {
    const path: string
    var services: seq<Service>

    constructor()
      ensures path == "/" && services == []
    {
      path := "/";
      services := [];
    }

    function Tree(): seq<ServiceNode>
      reads this, ServicesFrame(services)
    {
      ServiceNodes(services)
    }

    /** `add_service`: the list only grows, at its end. */
    method AddService(s: Service)
      modifies this
      ensures services == old(services) + [s]
    {
      services := services + [s];
    }

    /**
     * `GetManagedObjects`: every service, characteristic and descriptor,
     * depth first, assigned into one dictionary keyed by object path.
     */
    method GetManagedObjects() returns (response: map<string, Interfaces>)
      ensures response == ToMap(Entries(Tree()))
    {
      var tree := Tree();
      response := PutServices(tree);
      assert Tree() == tree;
    }
  }

  /** The services' entries, each followed by those of its characteristics and descriptors, assigned into a new dictionary. */
  method PutServices(tree: seq<ServiceNode>) returns (r: map<string, Interfaces>)
    ensures r == ToMap(Entries(tree))
  {
    r := map[];
    var i := 0;
    while i < |tree|
      invariant 0 <= i <= |tree|
      invariant r == Assign(map[], Entries(tree[..i]))
    {
      var service := tree[i];
      AssignNextService(tree, i);
      r := r[service.path := ServiceInterfaces(service)];
      r := PutCharacteristics(r, service.chrcs);
      i := i + 1;
    }
    assert tree[..i] == tree;
  }

  /** One more service: its own entry, then its characteristics' and descriptors'. */
  lemma {:induction false} AssignNextService(tree: seq<ServiceNode>, i: nat)
    requires i < |tree|
    ensures var s := tree[i];
      Assign(map[], Entries(tree[..i + 1]))
        == Assign(Assign(map[], Entries(tree[..i]))[s.path := ServiceInterfaces(s)], ChrcEntries(s.chrcs))
  {
    var s := tree[i];
    var before := Entries(tree[..i]);
    var e := (s.path, ServiceInterfaces(s));
    AssignSnoc(map[], before, e);
    AssignAppend(map[], before + [e], ChrcEntries(s.chrcs));
    TakeOneMore(tree, i);
    EntriesSnoc(tree[..i], s);
  }

  /** The characteristics' entries, each followed by its descriptors', assigned into `m`. */
  method PutCharacteristics(m: map<string, Interfaces>, chrcs: seq<ChrcNode>) returns (r: map<string, Interfaces>)
    ensures r == Assign(m, ChrcEntries(chrcs))
  {
    r := m;
    var j := 0;
    while j < |chrcs|
      invariant 0 <= j <= |chrcs|
      invariant r == Assign(m, ChrcEntries(chrcs[..j]))
    {
      var chrc := chrcs[j];
      ghost var before := ChrcEntries(chrcs[..j]);
      ghost var e := (chrc.path, ChrcInterfaces(chrc));
      AssignSnoc(m, before, e);
      r := r[chrc.path := ChrcInterfaces(chrc)];
      r := PutDescriptors(r, chrc.descs);
      AssignAppend(m, before + [e], DescEntries(chrc.descs));
      TakeOneMore(chrcs, j);
      ChrcEntriesSnoc(chrcs[..j], chrc);
      j := j + 1;
    }
    assert chrcs[..j] == chrcs;
  }

  /** The descriptors' entries, assigned into `m`. */
  method PutDescriptors(m: map<string, Interfaces>, descs: seq<DescNode>) returns (r: map<string, Interfaces>)
    ensures r == Assign(m, DescEntries(descs))
  {
    r := m;
    var k := 0;
    while k < |descs|
      invariant 0 <= k <= |descs|
      invariant r == Assign(m, DescEntries(descs[..k]))
    {
      var desc := descs[k];
      AssignSnoc(m, DescEntries(descs[..k]), (desc.path, DescInterfaces(desc)));
      r := r[desc.path := DescInterfaces(desc)];
      TakeOneMore(descs, k);
      DescEntriesSnoc(descs[..k], desc);
      k := k + 1;
    }
    assert descs[..k] == descs;
  }
}
