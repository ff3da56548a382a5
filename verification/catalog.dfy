/** The platform's partition table, seen as a sequence of records, and the
    pool of partitions registered for rotation. */
module Catalog {
  import opened Header

  datatype Option<T> = None | Some(value: T)

  datatype PartitionType = App | Data

  /** One row of the partition table. */
  datatype CatalogEntry = CatalogEntry(kind: PartitionType, subtype: uint8, name: string, size: nat)

  /** The subtype that matches every data partition. */
  const SubtypeAny: uint8 := 0xFF

  /** A pool entry: the name it was registered under and the row of the
      partition table it refers to. */
  datatype Partition = Partition(name: string, part: nat)

  /** A partition table as the platform provides it: at most 255 rows (a
      real table holds far fewer) and no partition of size 0. */
  predicate WellFormed(catalog: seq<CatalogEntry>) {
    |catalog| <= 255 && forall i :: 0 <= i < |catalog| ==> catalog[i].size > 0
  }

  /** Looking a data partition up by its label. */
  predicate IsDataNamed(e: CatalogEntry, name: string) {
    e.kind == Data && e.name == name
  }

  /** Enumerating data partitions by subtype, SubtypeAny matching them all. */
  predicate Matches(e: CatalogEntry, subtype: uint8) {
    e.kind == Data && (subtype == SubtypeAny || e.subtype == subtype)
  }

  /** The first data partition labelled `name` at or after row `from`. */
  function FindFrom(catalog: seq<CatalogEntry>, name: string, from: nat): (r: Option<nat>)
    requires from <= |catalog|
    ensures r.Some? ==> from <= r.value < |catalog| && IsDataNamed(catalog[r.value], name)
    ensures r.Some? ==> forall j :: from <= j < r.value ==> !IsDataNamed(catalog[j], name)
    ensures r.None? ==> forall j :: from <= j < |catalog| ==> !IsDataNamed(catalog[j], name)
    decreases |catalog| - from
  {
    if from == |catalog| then None
    else if IsDataNamed(catalog[from], name) then Some(from)
    else FindFrom(catalog, name, from + 1)
  }

  /** The first data partition labelled `name` in the whole table. */
  function FindFirst(catalog: seq<CatalogEntry>, name: string): Option<nat> {
    FindFrom(catalog, name, 0)
  }

  /** Whether some pool entry carries `name`. */
  predicate InPool(pool: seq<Partition>, name: string) {
    exists i :: 0 <= i < |pool| && pool[i].name == name
  }

  /** No name is registered twice. */
  ghost predicate DistinctNames(pool: seq<Partition>) {
    forall i, j :: 0 <= i < j < |pool| ==> pool[i].name != pool[j].name
  }

  /** Every pool entry refers to a data partition of the table carrying its name. */
  ghost predicate FromCatalog(catalog: seq<CatalogEntry>, pool: seq<Partition>) {
    forall i :: 0 <= i < |pool| ==>
      pool[i].part < |catalog| && IsDataNamed(catalog[pool[i].part], pool[i].name)
  }

  /** A pool registration can build: entries backed by the table, distinct
      names, hence never more entries than table rows. */
  ghost predicate PoolOk(catalog: seq<CatalogEntry>, pool: seq<Partition>) {
    FromCatalog(catalog, pool) && DistinctNames(pool) && |pool| <= |catalog|
  }

  /** Appending a table partition whose name is not pooled keeps the pool well formed. */
  lemma PoolAppend(catalog: seq<CatalogEntry>, pool: seq<Partition>, p: Partition)
    requires PoolOk(catalog, pool)
    requires p.part < |catalog| && IsDataNamed(catalog[p.part], p.name)
    requires !InPool(pool, p.name)
    ensures PoolOk(catalog, pool + [p])
  {
    var pool' := pool + [p];
    assert forall i :: 0 <= i < |pool| ==> pool'[i] == pool[i];
    assert FromCatalog(catalog, pool');
    assert DistinctNames(pool');
    PoolBound(catalog, pool');
  }

  /** The smallest size over the pool's partitions, 0 for an empty pool. */
  function MinCapacity(catalog: seq<CatalogEntry>, pool: seq<Partition>): nat
    requires forall i :: 0 <= i < |pool| ==> pool[i].part < |catalog|
    decreases |pool|
  {
    if |pool| == 0 then 0
    else
      var rest := MinCapacity(catalog, pool[..|pool| - 1]);
      var last := catalog[pool[|pool| - 1].part].size;
      if |pool| == 1 || last < rest then last else rest
  }

  /** The usable size is at most every pooled partition's size and is the
      size of one of them; it is 0 only for an empty pool of a well-formed table. */
  lemma {:induction false} MinCapacityIsMinimum(catalog: seq<CatalogEntry>, pool: seq<Partition>)
    requires forall i :: 0 <= i < |pool| ==> pool[i].part < |catalog|
    ensures forall i :: 0 <= i < |pool| ==> MinCapacity(catalog, pool) <= catalog[pool[i].part].size
    ensures |pool| == 0 ==> MinCapacity(catalog, pool) == 0
    ensures |pool| > 0 ==> exists i :: 0 <= i < |pool| && MinCapacity(catalog, pool) == catalog[pool[i].part].size
    decreases |pool|
  {
    if |pool| > 1 {
      var init := pool[..|pool| - 1];
      MinCapacityIsMinimum(catalog, init);
      var k :| 0 <= k < |init| && MinCapacity(catalog, init) == catalog[init[k].part].size;
      if MinCapacity(catalog, pool) == MinCapacity(catalog, init) {
        assert pool[k] == init[k];
      }
      forall i | 0 <= i < |pool|
        ensures MinCapacity(catalog, pool) <= catalog[pool[i].part].size
      {
        if i < |pool| - 1 {
          assert pool[i] == init[i];
        }
      }
    }
  }

  /** The update registration makes, where 0 means "no size yet", keeps the
      usable size equal to the minimum over the pool. */
  lemma MinCapacityAppend(catalog: seq<CatalogEntry>, pool: seq<Partition>, p: Partition)
    requires WellFormed(catalog)
    requires forall i :: 0 <= i < |pool| ==> pool[i].part < |catalog|
    requires p.part < |catalog|
    ensures var old_ := MinCapacity(catalog, pool);
            var size := catalog[p.part].size;
            MinCapacity(catalog, pool + [p]) == if old_ == 0 || size < old_ then size else old_
  {
    assert (pool + [p])[..|pool|] == pool;
    MinCapacityIsMinimum(catalog, pool);
    if |pool| > 0 {
      var k :| 0 <= k < |pool| && MinCapacity(catalog, pool) == catalog[pool[k].part].size;
      assert MinCapacity(catalog, pool) > 0;
    }
  }

  /** Once some partition is registered, registering more never raises the
      usable size. */
  lemma MinCapacityNeverGrows(catalog: seq<CatalogEntry>, pool: seq<Partition>, more: seq<Partition>)
    requires forall i :: 0 <= i < |pool| ==> pool[i].part < |catalog|
    requires forall i :: 0 <= i < |more| ==> more[i].part < |catalog|
    requires pool != []
    ensures MinCapacity(catalog, pool + more) <= MinCapacity(catalog, pool)
  {
    MinCapacityIsMinimum(catalog, pool);
    MinCapacityIsMinimum(catalog, pool + more);
    var k :| 0 <= k < |pool| && MinCapacity(catalog, pool) == catalog[pool[k].part].size;
    assert (pool + more)[k] == pool[k];
  }

  /** The pool after scanning rows [0, k) of the table for `subtype`: each
      matching partition whose label is not pooled yet is appended. */
  function Absorb(catalog: seq<CatalogEntry>, subtype: uint8, pool: seq<Partition>, k: nat): (r: seq<Partition>)
    requires k <= |catalog|
    ensures |pool| <= |r| && r[..|pool|] == pool
    ensures forall i :: |pool| <= i < |r| ==>
      r[i].part < k && Matches(catalog[r[i].part], subtype) && r[i].name == catalog[r[i].part].name
  {
    if k == 0 then pool
    else
      var before := Absorb(catalog, subtype, pool, k - 1);
      var e := catalog[k - 1];
      if Matches(e, subtype) && !InPool(before, e.name) then before + [Partition(e.name, k - 1)]
      else before
  }

  /** One more row of the scan. */
  lemma AbsorbStep(catalog: seq<CatalogEntry>, subtype: uint8, pool: seq<Partition>, k: nat)
    requires 0 < k <= |catalog|
    ensures var before := Absorb(catalog, subtype, pool, k - 1);
            var e := catalog[k - 1];
            Absorb(catalog, subtype, pool, k) ==
              if Matches(e, subtype) && !InPool(before, e.name) then before + [Partition(e.name, k - 1)] else before
  {
  }

  /** Scanning the table keeps names distinct and every entry backed by the table. */
  lemma {:induction false} AbsorbKeepsPoolWellFormed(catalog: seq<CatalogEntry>, subtype: uint8, pool: seq<Partition>, k: nat)
    requires k <= |catalog|
    requires FromCatalog(catalog, pool) && DistinctNames(pool)
    ensures FromCatalog(catalog, Absorb(catalog, subtype, pool, k))
    ensures DistinctNames(Absorb(catalog, subtype, pool, k))
  {
    if k > 0 {
      AbsorbKeepsPoolWellFormed(catalog, subtype, pool, k - 1);
    }
  }

  /** After the scan every matching partition of the table is pooled, and no
      label that was pooled before was appended again. */
  lemma {:induction false} AbsorbCoversMatches(catalog: seq<CatalogEntry>, subtype: uint8, pool: seq<Partition>, k: nat)
    requires k <= |catalog|
    ensures forall j :: 0 <= j < k && Matches(catalog[j], subtype) ==>
      InPool(Absorb(catalog, subtype, pool, k), catalog[j].name)
    ensures forall i :: |pool| <= i < |Absorb(catalog, subtype, pool, k)| ==>
      !InPool(pool, Absorb(catalog, subtype, pool, k)[i].name)
  {
    if k > 0 {
      AbsorbCoversMatches(catalog, subtype, pool, k - 1);
      var before := Absorb(catalog, subtype, pool, k - 1);
      var r := Absorb(catalog, subtype, pool, k);
      assert r[..|before|] == before;
      forall j | 0 <= j < k && Matches(catalog[j], subtype)
        ensures InPool(r, catalog[j].name)
      {
        if j < k - 1 {
          var w :| 0 <= w < |before| && before[w].name == catalog[j].name;
          assert r[w] == before[w];
        } else if InPool(before, catalog[j].name) {
          var w :| 0 <= w < |before| && before[w].name == catalog[j].name;
          assert r[w] == before[w];
        } else {
          assert r[|r| - 1].name == catalog[j].name;
        }
      }
      forall i | |pool| <= i < |r|
        ensures !InPool(pool, r[i].name)
      {
        if i < |before| {
          assert r[i] == before[i];
        } else {
          forall w | 0 <= w < |pool|
            ensures pool[w].name != r[i].name
          {
            assert before[w] == pool[w];
          }
        }
      }
    }
  }

  /** The appended entries follow the table's order. */
  lemma {:induction false} AbsorbInCatalogOrder(catalog: seq<CatalogEntry>, subtype: uint8, pool: seq<Partition>, k: nat)
    requires k <= |catalog|
    ensures forall i, j :: |pool| <= i < j < |Absorb(catalog, subtype, pool, k)| ==>
      Absorb(catalog, subtype, pool, k)[i].part < Absorb(catalog, subtype, pool, k)[j].part
  {
    if k > 0 {
      AbsorbInCatalogOrder(catalog, subtype, pool, k - 1);
      var before := Absorb(catalog, subtype, pool, k - 1);
      var r := Absorb(catalog, subtype, pool, k);
      assert r[..|before|] == before;
      forall i, j | |pool| <= i < j < |r|
        ensures r[i].part < r[j].part
      {
        assert r[i] == before[i];
        if j < |before| {
          assert r[j] == before[j];
        }
      }
    }
  }

  /** The set of a sequence of distinct values has as many elements as the sequence. */
  lemma {:induction false} DistinctSetSize(xs: seq<nat>)
    requires forall i, j :: 0 <= i < j < |xs| ==> xs[i] != xs[j]
    ensures |set i | 0 <= i < |xs| :: xs[i]| == |xs|
  {
    if xs != [] {
      var init := xs[..|xs| - 1];
      DistinctSetSize(init);
      var s := set i | 0 <= i < |init| :: init[i];
      assert (set i | 0 <= i < |xs| :: xs[i]) == s + {xs[|xs| - 1]};
      assert xs[|xs| - 1] !in s;
    }
  }

  /** A set of naturals below m has at most m elements. */
  lemma {:induction false} BelowSize(used: set<nat>, m: nat)
    requires forall x :: x in used ==> x < m
    ensures |used| <= m
  {
    if m == 0 {
      assert used == {};
    } else {
      var rest := used - {m - 1};
      BelowSize(rest, m - 1);
      assert used <= rest + {m - 1};
    }
  }

  /** Pool entries carry distinct names of table rows, so they refer to
      distinct rows and the pool is never longer than the table. */
  lemma PoolBound(catalog: seq<CatalogEntry>, pool: seq<Partition>)
    requires FromCatalog(catalog, pool) && DistinctNames(pool)
    ensures |pool| <= |catalog|
  {
    var parts := seq(|pool|, i requires 0 <= i < |pool| => pool[i].part);
    assert forall i, j :: 0 <= i < j < |parts| ==> parts[i] != parts[j] by {
      forall i, j | 0 <= i < j < |parts|
        ensures parts[i] != parts[j]
      {
        assert catalog[pool[i].part].name == pool[i].name;
        assert catalog[pool[j].part].name == pool[j].name;
      }
    }
    DistinctSetSize(parts);
    BelowSize(set i | 0 <= i < |parts| :: parts[i], |catalog|);
  }
}
