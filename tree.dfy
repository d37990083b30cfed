/**
 * Uniqueness of object paths in a tree built the way the constructors
 * build it (every child at its own index under its parent), and what that
 * means for `GetManagedObjects`: one dictionary entry per service,
 * characteristic and descriptor.
 */
module GattTree {
  import opened Text
  import opened DBus
  import opened Gatt

  /** A characteristic placed at index `i` of service `sp`, its descriptors at their own indices. */
  predicate ChrcAt(c: ChrcNode, sp: string, i: nat) {
    && c.path == ChrcPath(sp, i)
    && c.servicePath == sp
    && forall k :: 0 <= k < |c.descs| ==> c.descs[k].path == DescPath(c.path, k) && c.descs[k].chrcPath == c.path
  }

  /** Characteristics placed at indices `0 .. |cs| - 1` of service `sp`. */
  predicate ChrcsAt(cs: seq<ChrcNode>, sp: string) {
    forall i :: 0 <= i < |cs| ==> ChrcAt(cs[i], sp, i)
  }

  /** A service placed at index `index`, with its characteristics at their own indices. */
  predicate ServiceAt(s: ServiceNode, index: nat) {
    s.path == ServicePath(index) && ChrcsAt(s.chrcs, s.path)
  }

  /** The number of descriptors under some characteristics. */
  function DescCount(cs: seq<ChrcNode>): nat
    decreases |cs|
  {
    if cs == [] then 0 else DescCount(cs[..|cs| - 1]) + |cs[|cs| - 1].descs|
  }

  lemma ChrcPathsDiffer(sp: string, i: nat, j: nat)
    requires i != j
    ensures ChrcPath(sp, i) != ChrcPath(sp, j)
  {
    if ChrcPath(sp, i) == ChrcPath(sp, j) {
      IndexedInjective(sp + "/char", i, j);
    }
  }

  /**
   * Descriptor paths of a service differ whenever the characteristic
   * index or the descriptor index differs: the first `/` after the
   * characteristic's digits fixes where those digits end.
   */
  lemma DescPathsDiffer(sp: string, i: nat, k: nat, j: nat, l: nat)
    requires i != j || k != l
    ensures DescPath(ChrcPath(sp, i), k) != DescPath(ChrcPath(sp, j), l)
  {
    var base := sp + "/char";
    var ci, cj := ChrcPath(sp, i), ChrcPath(sp, j);
    var x, y := DescPath(ci, k), DescPath(cj, l);
    IndexedExtends(base, i);
    IndexedExtends(base, j);
    IndexedExtends(ci + "/desc", k);
    IndexedExtends(cj + "/desc", l);
    assert x[|ci|] == '/' && y[|cj|] == '/';
    assert x[..|ci|] == ci && y[..|cj|] == cj;
    if x == y {
      assert |ci| == |cj| by {
        assert forall t :: |base| <= t < |ci| ==> x[t] == ci[t];
        assert forall t :: |base| <= t < |cj| ==> y[t] == cj[t];
      }
      assert ci == cj;
      IndexedInjective(base, i, j);
      IndexedInjective(ci + "/desc", k, l);
    }
  }

  /** The entries of some descriptors are those descriptors' paths and interfaces, in order. */
  lemma {:induction false} DescEntriesAre(ds: seq<DescNode>)
    ensures |DescEntries(ds)| == |ds|
    ensures forall t :: 0 <= t < |ds| ==> DescEntries(ds)[t] == (ds[t].path, DescInterfaces(ds[t]))
    decreases |ds|
  {
    if ds != [] {
      DescEntriesAre(ds[..|ds| - 1]);
    }
  }

  /** One entry per characteristic and one per descriptor under it. */
  lemma {:induction false} ChrcEntriesCount(cs: seq<ChrcNode>)
    ensures |ChrcEntries(cs)| == |cs| + DescCount(cs)
    decreases |cs|
  {
    if cs != [] {
      ChrcEntriesCount(cs[..|cs| - 1]);
      DescEntriesAre(cs[|cs| - 1].descs);
    }
  }

  /** Every entry under service `sp` has `sp` as a strict prefix of its path. */
  lemma {:induction false} ChrcEntriesUnder(cs: seq<ChrcNode>, sp: string)
    requires ChrcsAt(cs, sp)
    ensures forall e :: 0 <= e < |ChrcEntries(cs)| ==>
      |sp| < |ChrcEntries(cs)[e].0| && ChrcEntries(cs)[e].0[..|sp|] == sp
    decreases |cs|
  {
    if cs != [] {
      var n := |cs| - 1;
      var c := cs[n];
      var old_ := ChrcEntries(cs[..n]);
      ChrcEntriesUnder(cs[..n], sp);
      DescEntriesAre(c.descs);
      ChildPathsExtendParent(sp, n);
      var es := ChrcEntries(cs);
      assert es == old_ + [(c.path, ChrcInterfaces(c))] + DescEntries(c.descs);
      forall e | 0 <= e < |es|
        ensures |sp| < |es[e].0| && es[e].0[..|sp|] == sp
      {
        if e < |old_| {
          assert es[e] == old_[e];
        } else if e > |old_| {
          var t := e - |old_| - 1;
          assert es[e] == DescEntries(c.descs)[t];
          ChildPathsExtendParent(c.path, t);
          assert es[e].0[..|sp|] == es[e].0[..|c.path|][..|sp|];
        }
      }
    }
  }

  /**
   * None of the entries of the characteristics at indices below `m` has
   * the path of the characteristic at index `m`, or of any of its
   * descriptors.
   */
  lemma {:induction false} LaterPathsAreNew(cs: seq<ChrcNode>, sp: string, m: nat)
    requires ChrcsAt(cs, sp) && |cs| <= m
    ensures forall e :: 0 <= e < |ChrcEntries(cs)| ==>
      && ChrcEntries(cs)[e].0 != ChrcPath(sp, m)
      && forall k: nat :: ChrcEntries(cs)[e].0 != DescPath(ChrcPath(sp, m), k)
    decreases |cs|
  {
    if cs != [] {
      var n := |cs| - 1;
      var c := cs[n];
      var old_ := ChrcEntries(cs[..n]);
      LaterPathsAreNew(cs[..n], sp, m);
      DescEntriesAre(c.descs);
      ChrcPathsDiffer(sp, n, m);
      var es := ChrcEntries(cs);
      assert es == old_ + [(c.path, ChrcInterfaces(c))] + DescEntries(c.descs);
      forall e | 0 <= e < |es|
        ensures es[e].0 != ChrcPath(sp, m) && forall k: nat :: es[e].0 != DescPath(ChrcPath(sp, m), k)
      {
        if e < |old_| {
          assert es[e] == old_[e];
        } else if e == |old_| {
          forall k: nat ensures c.path != DescPath(ChrcPath(sp, m), k) {
            DescNeverChrc(sp, m, k, n);
          }
        } else {
          var t := e - |old_| - 1;
          assert es[e] == DescEntries(c.descs)[t];
          DescNeverChrc(sp, n, t, m);
          forall k: nat ensures es[e].0 != DescPath(ChrcPath(sp, m), k) {
            DescPathsDiffer(sp, n, t, m, k);
          }
        }
      }
    }
  }

  lemma SiblingPathsDiffer(base: string, a: nat, b: nat)
    requires a != b
    ensures Indexed(base, a) != Indexed(base, b)
  {
    if Indexed(base, a) == Indexed(base, b) {
      IndexedInjective(base, a, b);
    }
  }

  /** A characteristic's own entry and its descriptors' entries have different paths. */
  lemma BlockDistinct(c: ChrcNode, sp: string, n: nat)
    requires ChrcAt(c, sp, n)
    ensures Distinct(EntryPaths([(c.path, ChrcInterfaces(c))] + DescEntries(c.descs)))
  {
    BlockPathsDistinct(c.path, ChrcInterfaces(c), c.descs);
  }

  /** `BlockDistinct` for any interfaces the parent entry carries. */
  lemma {:induction false} BlockPathsDistinct(path: string, ifs: Interfaces, ds: seq<DescNode>)
    requires forall k :: 0 <= k < |ds| ==> ds[k].path == DescPath(path, k)
    ensures Distinct(EntryPaths([(path, ifs)] + DescEntries(ds)))
  {
    var block := [(path, ifs)] + DescEntries(ds);
    var paths := EntryPaths(block);
    assert paths[0] == path;
    assert forall y :: 1 <= y < |block| ==> paths[y] == DescPath(path, y - 1) by {
      DescEntriesAre(ds);
      forall y | 1 <= y < |block|
        ensures paths[y] == DescPath(path, y - 1)
      {
        assert block[y] == DescEntries(ds)[y - 1];
      }
    }
    forall x, y | 0 <= x < y < |block|
      ensures paths[x] != paths[y]
    {
      if x == 0 {
        ChildPathsExtendParent(path, y - 1);
      } else {
        SiblingPathsDiffer(path + "/desc", x - 1, y - 1);
      }
    }
  }

  lemma DistinctAppend(a: seq<Entry>, b: seq<Entry>)
    requires Distinct(EntryPaths(a)) && Distinct(EntryPaths(b))
    requires forall x, y :: 0 <= x < |a| && 0 <= y < |b| ==> a[x].0 != b[y].0
    ensures Distinct(EntryPaths(a + b))
  {
    var ab := a + b;
    forall x, y | 0 <= x < y < |ab|
      ensures EntryPaths(ab)[x] != EntryPaths(ab)[y]
    {
      if y < |a| {
        assert EntryPaths(a)[x] != EntryPaths(a)[y];
      } else if x >= |a| {
        assert EntryPaths(b)[x - |a|] != EntryPaths(b)[y - |a|];
      } else {
        assert ab[y] == b[y - |a|];
      }
    }
  }

  /** The entries of characteristics placed at their own indices all have different paths. */
  lemma {:induction false} ChrcEntriesDistinct(cs: seq<ChrcNode>, sp: string)
    requires ChrcsAt(cs, sp)
    ensures Distinct(EntryPaths(ChrcEntries(cs)))
    decreases |cs|
  {
    if cs != [] {
      var n := |cs| - 1;
      var c := cs[n];
      var old_ := ChrcEntries(cs[..n]);
      var block := [(c.path, ChrcInterfaces(c))] + DescEntries(c.descs);
      assert ChrcsAt(cs[..n], sp) && ChrcAt(c, sp, n);
      assert Distinct(EntryPaths(old_)) by { ChrcEntriesDistinct(cs[..n], sp); }
      assert Distinct(EntryPaths(block)) by { BlockDistinct(c, sp, n); }
      assert forall x, y :: 0 <= x < |old_| && 0 <= y < |block| ==> old_[x].0 != block[y].0 by {
        LaterPathsAreNew(cs[..n], sp, n);
        DescEntriesAre(c.descs);
        forall x, y | 0 <= x < |old_| && 0 <= y < |block|
          ensures old_[x].0 != block[y].0
        {
          if y > 0 {
            assert block[y] == DescEntries(c.descs)[y - 1];
          }
        }
      }
      DistinctAppend(old_, block);
      assert ChrcEntries(cs) == old_ + block;
    }
  }

  /**
   * A service placed as the constructors place it has one entry per
   * object under it, no two with the same path, so `GetManagedObjects`
   * answers with one key per object, each holding that object's own
   * interfaces.
   */
  lemma ServiceObjectsDistinct(s: ServiceNode, index: nat)
    requires ServiceAt(s, index)
    ensures |Entries([s])| == 1 + |s.chrcs| + DescCount(s.chrcs)
    ensures Distinct(EntryPaths(Entries([s])))
    ensures |ToMap(Entries([s])).Keys| == 1 + |s.chrcs| + DescCount(s.chrcs)
    ensures forall e :: 0 <= e < |Entries([s])| ==>
      Entries([s])[e].0 in ToMap(Entries([s])) && ToMap(Entries([s]))[Entries([s])[e].0] == Entries([s])[e].1
  {
    var head := [(s.path, ServiceInterfaces(s))];
    var rest := ChrcEntries(s.chrcs);
    assert [s][..0] == [];
    assert Entries([s]) == head + rest;
    ChrcEntriesCount(s.chrcs);
    ChrcEntriesDistinct(s.chrcs, s.path);
    ChrcEntriesUnder(s.chrcs, s.path);
    DistinctAppend(head, rest);
    ToMapDistinct(Entries([s]));
  }
}
