/**
 * How the two encodings of a category tree relate.
 *
 * A closure table encodes an ancestor-list data set when every path runs from
 * a record, or from one of the ancestor ids the record lists, down to that
 * record, and every such pair has a path. For a record of the data, the two
 * encodings then answer DescendantIs alike and their Descendants lists carry
 * the same ids. With unique ids their Ancestors lists carry the same ids too:
 * both look a dangling ancestor id up to the zero value. AnscestorIs also needs
 * the record's ancestor ids to resolve, because the ancestor-list version
 * compares looked-up records while the closure-table version reads the paths
 * alone. The orders of the lists differ. The sample
 * tree of the two programs is such a pair. RootOf is where the two disagree on
 * it: for the root 1, the ancestor-list version returns the zero value and the
 * closure-table version returns the root itself. (On other tables the
 * closure-table version can also give the zero value for a root, for instance
 * when its self path is listed twice.)
 */
module Agreement {
  import A = AncestorList
  import B = ClosureTable

  /** The closure-table category for an ancestor-list record: the same id and name. */
  function Strip(c: A.Category): B.Category {
    B.Category(c.id, c.name)
  }

  /** The closure-table categories for an ancestor-list data set, in the same order. */
  function Cats(data: seq<A.Category>): seq<B.Category> {
    seq(|data|, i requires 0 <= i < |data| => Strip(data[i]))
  }

  /** Some path runs from `anc` down to `desc`: the id-level form of `B.IsDescendant`. */
  predicate HasPath(paths: seq<B.CategoryPath>, anc: int, desc: int) {
    exists k :: 0 <= k < |paths| && paths[k].ancestorId == anc && paths[k].descendantId == desc
  }

  /** Path `p` runs from some record, or from an ancestor id it lists, down to that record. */
  predicate Justified(data: seq<A.Category>, p: B.CategoryPath) {
    exists i :: 0 <= i < |data| && data[i].id == p.descendantId &&
      (p.ancestorId == data[i].id || p.ancestorId in data[i].ancestorIds)
  }

  /** Every path is justified by a record. */
  predicate Sound(data: seq<A.Category>, paths: seq<B.CategoryPath>) {
    forall k :: 0 <= k < |paths| ==> Justified(data, paths[k])
  }

  /** Every record has its self path and a path from each ancestor id it lists. */
  predicate Complete(data: seq<A.Category>, paths: seq<B.CategoryPath>) {
    forall i :: 0 <= i < |data| ==>
      HasPath(paths, data[i].id, data[i].id) && forall a :: a in data[i].ancestorIds ==> HasPath(paths, a, data[i].id)
  }

  /** `paths` is the closure table of `data`. */
  predicate Encodes(data: seq<A.Category>, paths: seq<B.CategoryPath>) {
    Sound(data, paths) && Complete(data, paths)
  }

  /** An id resolves in a data set exactly when it resolves among its closure-table categories. */
  lemma CatsResolve(id: int, data: seq<A.Category>)
    ensures A.Resolves(id, data) <==> B.Resolves(id, Cats(data))
  {
    var cats := Cats(data);
    if A.Resolves(id, data) {
      var k :| 0 <= k < |data| && data[k].id == id;
      assert cats[k].id == id;
    }
    if B.Resolves(id, cats) {
      var k :| 0 <= k < |cats| && cats[k].id == id;
      assert data[k].id == id;
    }
  }

  /** With unique ids, the paths down to a record start exactly at the record and at the ancestor ids it lists. */
  lemma PathsToRecord(c: A.Category, data: seq<A.Category>, paths: seq<B.CategoryPath>)
    requires Encodes(data, paths) && A.UniqueIds(data) && c in data
    ensures forall a :: HasPath(paths, a, c.id) <==> a in [c.id] + c.ancestorIds
  {
    var i :| 0 <= i < |data| && data[i] == c;
    forall a ensures HasPath(paths, a, c.id) <==> a in [c.id] + c.ancestorIds {
      if HasPath(paths, a, c.id) {
        var k :| 0 <= k < |paths| && paths[k].ancestorId == a && paths[k].descendantId == c.id;
        var j :| 0 <= j < |data| && data[j].id == paths[k].descendantId &&
          (paths[k].ancestorId == data[j].id || paths[k].ancestorId in data[j].ancestorIds);
        assert data[j].id == data[i].id;
      }
      if a in [c.id] + c.ancestorIds {
        assert a == c.id || a in data[i].ancestorIds;
      }
    }
  }

  /** The paths from a record end exactly at the record and at the records that list its id. */
  lemma PathsFromRecord(c: A.Category, data: seq<A.Category>, paths: seq<B.CategoryPath>)
    requires Encodes(data, paths) && c in data
    ensures forall d :: HasPath(paths, c.id, d) <==>
              d == c.id || exists k :: 0 <= k < |data| && data[k].id == d && c.id in data[k].ancestorIds
  {
    var i :| 0 <= i < |data| && data[i] == c;
    forall d ensures HasPath(paths, c.id, d) <==>
                       d == c.id || exists k :: 0 <= k < |data| && data[k].id == d && c.id in data[k].ancestorIds
    {
      if HasPath(paths, c.id, d) {
        var k :| 0 <= k < |paths| && paths[k].ancestorId == c.id && paths[k].descendantId == d;
        var j :| 0 <= j < |data| && data[j].id == paths[k].descendantId &&
          (paths[k].ancestorId == data[j].id || paths[k].ancestorId in data[j].ancestorIds);
      }
      if k :| 0 <= k < |data| && data[k].id == d && c.id in data[k].ancestorIds {
        assert HasPath(paths, c.id, data[k].id);
      } else if d == c.id {
        assert HasPath(paths, data[i].id, data[i].id);
      }
    }
  }

  /** On a closure table of `data`, the two AnscestorIs answer alike for a record whose ancestor ids resolve. */
  lemma AnscestorIsAgrees(c: A.Category, t: A.Category, data: seq<A.Category>, paths: seq<B.CategoryPath>)
    requires Encodes(data, paths) && A.UniqueIds(data) && c in data && A.AllResolve(c.ancestorIds, data)
    ensures A.IsAncestor(c, t, data) <==> B.IsAncestor(Strip(c), Strip(t), paths)
  {
    A.AncestorIsIff(c, t, data);
    PathsToRecord(c, data, paths);
    assert B.IsAncestor(Strip(c), Strip(t), paths) <==> HasPath(paths, t.id, c.id);
  }

  /**
   * On a closure table of a well-formed data set, the closure-table AnscestorIs
   * is transitive between records, inherited from the ancestor-list encoding.
   */
  lemma ClosureAncestorIsTransitive(a: A.Category, b: A.Category, t: A.Category, data: seq<A.Category>, paths: seq<B.CategoryPath>)
    requires Encodes(data, paths) && A.WellFormed(data) && a in data && b in data
    requires B.IsAncestor(Strip(a), Strip(b), paths) && B.IsAncestor(Strip(b), Strip(t), paths)
    ensures B.IsAncestor(Strip(a), Strip(t), paths)
  {
    var i :| 0 <= i < |data| && data[i] == a;
    var j :| 0 <= j < |data| && data[j] == b;
    AnscestorIsAgrees(a, b, data, paths);
    AnscestorIsAgrees(b, t, data, paths);
    A.AncestorIsTransitive(a, b, t, data);
    AnscestorIsAgrees(a, t, data, paths);
  }

  /** On a closure table of `data`, the two DescendantIs answer alike for every record. */
  lemma DescendantIsAgrees(c: A.Category, t: A.Category, data: seq<A.Category>, paths: seq<B.CategoryPath>)
    requires Encodes(data, paths) && c in data
    ensures A.IsDescendant(c, t, data) <==> B.IsDescendant(Strip(c), Strip(t), paths)
  {
    A.DescendantIsIff(c, t, data);
    PathsFromRecord(c, data, paths);
    assert B.IsDescendant(Strip(c), Strip(t), paths) <==> HasPath(paths, c.id, t.id);
  }

  /** The ids in a closure-table Ancestors answer are the ancestor ends of the paths to `c`, when those ends resolve. */
  lemma AncestorIdsOfPaths(c: B.Category, cats: seq<B.Category>, paths: seq<B.CategoryPath>)
    requires forall k :: 0 <= k < |paths| && paths[k].descendantId == c.id ==> B.Resolves(paths[k].ancestorId, cats)
    ensures forall id :: id in B.Ids(B.AncestorsIn(c, cats, paths)) <==> HasPath(paths, id, c.id)
  {
    var r := B.AncestorsIn(c, cats, paths);
    B.AncestorsAreLookedUpPaths(c, cats, paths);
    forall id ensures id in B.Ids(r) <==> HasPath(paths, id, c.id) {
      if id in B.Ids(r) {
        var i :| 0 <= i < |r| && B.Ids(r)[i] == id;
        assert r[i] in r;
        var k :| 0 <= k < |paths| && paths[k].descendantId == c.id && r[i] == B.Lookup(paths[k].ancestorId, cats);
        B.LookupResolved(paths[k].ancestorId, cats);
      }
      if HasPath(paths, id, c.id) {
        var k :| 0 <= k < |paths| && paths[k].ancestorId == id && paths[k].descendantId == c.id;
        B.LookupResolved(id, cats);
        var x := B.Lookup(id, cats);
        assert x in r;
        var i :| 0 <= i < |r| && r[i] == x;
        assert B.Ids(r)[i] == id;
      }
    }
  }

  /** The ids in a closure-table Descendants answer are the descendant ends of the paths from `c`, when those ends resolve. */
  lemma DescendantIdsOfPaths(c: B.Category, cats: seq<B.Category>, paths: seq<B.CategoryPath>)
    requires forall k :: 0 <= k < |paths| && paths[k].ancestorId == c.id ==> B.Resolves(paths[k].descendantId, cats)
    ensures forall id :: id in B.Ids(B.DescendantsIn(c, cats, paths)) <==> HasPath(paths, c.id, id)
  {
    var r := B.DescendantsIn(c, cats, paths);
    B.DescendantsAreLookedUpPaths(c, cats, paths);
    forall id ensures id in B.Ids(r) <==> HasPath(paths, c.id, id) {
      if id in B.Ids(r) {
        var i :| 0 <= i < |r| && B.Ids(r)[i] == id;
        assert r[i] in r;
        var k :| 0 <= k < |paths| && paths[k].ancestorId == c.id && r[i] == B.Lookup(paths[k].descendantId, cats);
        B.LookupResolved(paths[k].descendantId, cats);
      }
      if HasPath(paths, c.id, id) {
        var k :| 0 <= k < |paths| && paths[k].ancestorId == c.id && paths[k].descendantId == id;
        B.LookupResolved(id, cats);
        var x := B.Lookup(id, cats);
        assert x in r;
        var i :| 0 <= i < |r| && r[i] == x;
        assert B.Ids(r)[i] == id;
      }
    }
  }

  /** Looking an id up among the first `n` projections gives the projection of the ancestor-list lookup. */
  lemma {:induction false} LookupPrefixStrip(id: int, data: seq<A.Category>, n: nat)
    requires n <= |data|
    ensures B.LookupPrefix(id, Cats(data), n) == Strip(A.LookupPrefix(id, data, n))
  {
    if n > 0 {
      LookupPrefixStrip(id, data, n - 1);
    }
  }

  /** Each id in the ancestor-list Ancestors of a record is an id in the closure-table Ancestors. */
  lemma ChainIdOnPaths(c: A.Category, data: seq<A.Category>, paths: seq<B.CategoryPath>, i: nat)
    requires Encodes(data, paths) && A.UniqueIds(data) && c in data && i < |A.AncestorChain(c, data)|
    ensures A.Ids(A.AncestorChain(c, data))[i] in B.Ids(B.AncestorsIn(Strip(c), Cats(data), paths))
  {
    var cats, chain := Cats(data), A.AncestorChain(c, data);
    var r := B.AncestorsIn(Strip(c), cats, paths);
    A.AncestorChainShape(c, data);
    var a := if i == 0 then c.id else c.ancestorIds[i - 1];
    assert chain[i] == A.Lookup(a, data) by {
      if i == 0 { A.LookupUnique(c, data); }
    }
    PathsToRecord(c, data, paths);
    assert HasPath(paths, a, c.id);
    var k :| 0 <= k < |paths| && paths[k].ancestorId == a && paths[k].descendantId == c.id;
    B.AncestorsAreLookedUpPaths(Strip(c), cats, paths);
    LookupPrefixStrip(a, data, |data|);
    var x := B.Lookup(a, cats);
    assert x in r;
    var j :| 0 <= j < |r| && r[j] == x;
    assert B.Ids(r)[j] == A.Ids(chain)[i];
  }

  /** Each id in the closure-table Ancestors of a record is an id in the ancestor-list Ancestors. */
  lemma PathIdInChain(c: A.Category, data: seq<A.Category>, paths: seq<B.CategoryPath>, j: nat)
    requires Encodes(data, paths) && A.UniqueIds(data) && c in data && j < |B.AncestorsIn(Strip(c), Cats(data), paths)|
    ensures B.Ids(B.AncestorsIn(Strip(c), Cats(data), paths))[j] in A.Ids(A.AncestorChain(c, data))
  {
    var cats, chain := Cats(data), A.AncestorChain(c, data);
    var r := B.AncestorsIn(Strip(c), cats, paths);
    B.AncestorsAreLookedUpPaths(Strip(c), cats, paths);
    assert r[j] in r;
    var k :| 0 <= k < |paths| && paths[k].descendantId == c.id && r[j] == B.Lookup(paths[k].ancestorId, cats);
    var a := paths[k].ancestorId;
    assert HasPath(paths, a, c.id);
    PathsToRecord(c, data, paths);
    LookupPrefixStrip(a, data, |data|);
    A.AncestorChainShape(c, data);
    if a == c.id {
      A.LookupUnique(c, data);
      assert A.Ids(chain)[0] == B.Ids(r)[j];
    } else {
      var m :| 0 <= m < |c.ancestorIds| && c.ancestorIds[m] == a;
      assert A.Ids(chain)[m + 1] == B.Ids(r)[j];
    }
  }

  /**
   * On a closure table of unique-id data, the two Ancestors lists of a record
   * hold the same ids. A dangling ancestor id gives id 0 on both sides: both
   * programs look it up to the zero value.
   */
  lemma AncestorIdsAgree(c: A.Category, data: seq<A.Category>, paths: seq<B.CategoryPath>)
    requires Encodes(data, paths) && A.UniqueIds(data) && c in data
    ensures forall id :: id in A.Ids(A.AncestorChain(c, data)) <==> id in B.Ids(B.AncestorsIn(Strip(c), Cats(data), paths))
  {
    var chain := A.AncestorChain(c, data);
    var r := B.AncestorsIn(Strip(c), Cats(data), paths);
    forall id ensures id in A.Ids(chain) <==> id in B.Ids(r) {
      if id in A.Ids(chain) {
        var i :| 0 <= i < |A.Ids(chain)| && A.Ids(chain)[i] == id;
        ChainIdOnPaths(c, data, paths, i);
      }
      if id in B.Ids(r) {
        var j :| 0 <= j < |B.Ids(r)| && B.Ids(r)[j] == id;
        PathIdInChain(c, data, paths, j);
      }
    }
  }

  /** On a closure table of `data`, the two Descendants lists of a record hold the same ids. */
  lemma DescendantIdsAgree(c: A.Category, data: seq<A.Category>, paths: seq<B.CategoryPath>)
    requires Encodes(data, paths) && c in data
    ensures forall id :: id in A.Ids(A.DescendantList(c, data)) <==> id in B.Ids(B.DescendantsIn(Strip(c), Cats(data), paths))
  {
    var cats := Cats(data);
    forall k | 0 <= k < |paths| && paths[k].ancestorId == c.id ensures B.Resolves(paths[k].descendantId, cats) {
      var j :| 0 <= j < |data| && data[j].id == paths[k].descendantId &&
        (paths[k].ancestorId == data[j].id || paths[k].ancestorId in data[j].ancestorIds);
      CatsResolve(paths[k].descendantId, data);
    }
    DescendantIdsOfPaths(Strip(c), cats, paths);
    PathsFromRecord(c, data, paths);
    var list := A.DescendantList(c, data);
    forall id ensures id in A.Ids(list) <==> HasPath(paths, c.id, id) {
      A.DescendantIsIff(c, A.Category(id, 0, [], ""), data);
      if id in A.Ids(list) {
        var i :| 0 <= i < |list| && A.Ids(list)[i] == id;
        assert list[i].id == id;
      }
      if A.HasId(list, id) {
        var i :| 0 <= i < |list| && list[i].id == id;
        assert A.Ids(list)[i] == id;
      }
    }
  }

  // ---------------------------------------------------------------------------
  // The sample tree of the two programs

  /** Each sample path is justified by the sample record at its descendant end. */
  lemma SampleSound()
    ensures Sound(A.AllCategories, B.Paths)
  {
    var d, p := A.AllCategories, B.Paths;
    forall k | 0 <= k < |p| ensures Justified(d, p[k]) {
      if k == 0 {
        assert d[0].id == p[0].descendantId;
      } else if k == 1 {
        assert d[2].id == p[1].descendantId;
      } else if k == 2 {
        assert d[3].id == p[2].descendantId;
      } else if k == 3 {
        assert d[5].id == p[3].descendantId;
      } else if k == 4 {
        assert d[1].id == p[4].descendantId;
      } else if k == 5 {
        assert d[4].id == p[5].descendantId;
      } else if k == 6 {
        assert d[2].id == p[6].descendantId;
      } else if k == 7 {
        assert d[5].id == p[7].descendantId;
      } else if k == 8 {
        assert d[3].id == p[8].descendantId;
      } else if k == 9 {
        assert d[4].id == p[9].descendantId;
      } else {
        assert d[5].id == p[10].descendantId;
      }
    }
  }

  /** Each sample record has its self path and a path from each ancestor id it lists. */
  lemma SampleComplete()
    ensures Complete(A.AllCategories, B.Paths)
  {
    var d, p := A.AllCategories, B.Paths;
    assert HasPath(p, 1, 1) by { assert p[0].ancestorId == 1 && p[0].descendantId == 1; }
    assert HasPath(p, 1, 29) by { assert p[1].ancestorId == 1 && p[1].descendantId == 29; }
    assert HasPath(p, 1, 30) by { assert p[2].ancestorId == 1 && p[2].descendantId == 30; }
    assert HasPath(p, 1, 200) by { assert p[3].ancestorId == 1 && p[3].descendantId == 200; }
    assert HasPath(p, 2, 2) by { assert p[4].ancestorId == 2 && p[4].descendantId == 2; }
    assert HasPath(p, 2, 38) by { assert p[5].ancestorId == 2 && p[5].descendantId == 38; }
    assert HasPath(p, 29, 29) by { assert p[6].ancestorId == 29 && p[6].descendantId == 29; }
    assert HasPath(p, 29, 200) by { assert p[7].ancestorId == 29 && p[7].descendantId == 200; }
    assert HasPath(p, 30, 30) by { assert p[8].ancestorId == 30 && p[8].descendantId == 30; }
    assert HasPath(p, 38, 38) by { assert p[9].ancestorId == 38 && p[9].descendantId == 38; }
    assert HasPath(p, 200, 200) by { assert p[10].ancestorId == 200 && p[10].descendantId == 200; }
    forall i | 0 <= i < |d|
      ensures HasPath(p, d[i].id, d[i].id) && forall a :: a in d[i].ancestorIds ==> HasPath(p, a, d[i].id)
    {
      assert i == 0 || i == 1 || i == 2 || i == 3 || i == 4 || i == 5;
    }
  }

  /** The closure-table sample is the closure table of the ancestor-list sample, over the same categories. */
  lemma SampleEncodes()
    ensures B.AllCategories == Cats(A.AllCategories)
    ensures A.UniqueIds(A.AllCategories)
    ensures Encodes(A.AllCategories, B.Paths)
  {
    A.SampleWellFormed();
    SampleSound();
    SampleComplete();
    assert B.AllCategories == Cats(A.AllCategories);
  }

  /** On the sample, the two encodings give the same ancestor ids and the same descendant ids for every category. */
  lemma SampleIdSetsAgree()
    ensures forall i, id :: 0 <= i < |A.AllCategories| ==>
              (id in A.Ids(A.AncestorChain(A.AllCategories[i], A.AllCategories)) <==>
               id in B.Ids(B.AncestorsIn(B.AllCategories[i], B.AllCategories, B.Paths)))
    ensures forall i, id :: 0 <= i < |A.AllCategories| ==>
              (id in A.Ids(A.DescendantList(A.AllCategories[i], A.AllCategories)) <==>
               id in B.Ids(B.DescendantsIn(B.AllCategories[i], B.AllCategories, B.Paths)))
  {
    var d := A.AllCategories;
    SampleEncodes();
    A.SampleResolves();
    forall i | 0 <= i < |d|
      ensures forall id :: id in A.Ids(A.AncestorChain(d[i], d)) <==>
                id in B.Ids(B.AncestorsIn(B.AllCategories[i], B.AllCategories, B.Paths))
      ensures forall id :: id in A.Ids(A.DescendantList(d[i], d)) <==>
                id in B.Ids(B.DescendantsIn(B.AllCategories[i], B.AllCategories, B.Paths))
    {
      assert B.AllCategories[i] == Strip(d[i]);
      AncestorIdsAgree(d[i], d, B.Paths);
      DescendantIdsAgree(d[i], d, B.Paths);
    }
  }

  /** With roots answered by themselves, the ancestor-list root query agrees with the closure-table RootOf on every sample category. */
  lemma SampleRootsAgree()
    ensures forall i :: 0 <= i < |A.AllCategories| ==>
              A.RootOrSelf(A.AllCategories[i], A.AllCategories).id == B.RootIn(B.AllCategories[i], B.AllCategories, B.Paths).id
  {
    var d, c := A.AllCategories, B.AllCategories;
    A.SampleRootOf();
    B.SampleRootOf();
    forall i | 0 <= i < |d| ensures A.RootOrSelf(d[i], d).id == B.RootIn(c[i], c, B.Paths).id {
      assert i == 0 || i == 1 || i == 2 || i == 3 || i == 4 || i == 5;
    }
  }
}
