/**
 * The ancestor-list encoding of a category tree (array_of_anscestors/main.go).
 *
 * Every category record carries the ids of all of its ancestors, root first and
 * parent last. Queries scan the list of records; none of them changes anything.
 * Each query is a method with the loop of the Go code, proved equal to a
 * specification function; the properties of the queries are lemmas about those
 * functions.
 */
module AncestorList {

  /** A category record; `ancestorIds` runs from the root down to the parent. */
  datatype Category = Category(id: int, parentId: int, ancestorIds: seq<int>, name: string)

  /** The value a Go `Category` variable holds before anything is assigned to it. */
  const Zero := Category(0, 0, [], "")

  // ---------------------------------------------------------------------------
  // Lookup by id (CategoryOfId)

  /** Some record of `data` has id `id`. */
  predicate Resolves(id: int, data: seq<Category>) {
    exists k :: 0 <= k < |data| && data[k].id == id
  }

  /** Every id of `ids` is the id of some record of `data`. */
  predicate AllResolve(ids: seq<int>, data: seq<Category>) {
    forall i :: 0 <= i < |ids| ==> Resolves(ids[i], data)
  }

  /** `data[k]` is the last of the first `n` records whose id is `id`. */
  predicate LastIdAt(id: int, data: seq<Category>, n: nat, k: int)
    requires n <= |data|
  {
    0 <= k < n && data[k].id == id && forall j :: k < j < n ==> data[j].id != id
  }

  /**
   * What CategoryOfId finds among the first `n` records: the scan has no
   * `break`, so the last match wins; on a miss it is the zero value.
   */
  function LookupPrefix(id: int, data: seq<Category>, n: nat): Category
    requires n <= |data|
    decreases n
  {
    if n == 0 then Zero
    else if data[n - 1].id == id then data[n - 1]
    else LookupPrefix(id, data, n - 1)
  }

  /** Without a matching record among the first `n`, the scan yields the zero value. */
  lemma {:induction false} LookupPrefixMiss(id: int, data: seq<Category>, n: nat)
    requires n <= |data|
    requires forall k :: 0 <= k < n ==> data[k].id != id
    ensures LookupPrefix(id, data, n) == Zero
    decreases n
  {
    if n > 0 {
      LookupPrefixMiss(id, data, n - 1);
    }
  }

  /** With a matching record among the first `n`, the scan yields the last one. */
  lemma {:induction false} LookupPrefixHit(id: int, data: seq<Category>, n: nat, k0: nat)
    requires n <= |data| && k0 < n && data[k0].id == id
    ensures exists k :: LastIdAt(id, data, n, k) && LookupPrefix(id, data, n) == data[k]
    decreases n
  {
    if data[n - 1].id == id {
      assert LastIdAt(id, data, n, n - 1);
    } else {
      LookupPrefixHit(id, data, n - 1, k0);
      var k :| LastIdAt(id, data, n - 1, k) && LookupPrefix(id, data, n - 1) == data[k];
      assert LastIdAt(id, data, n, k);
    }
  }

  /** The record CategoryOfId(id, data) returns. */
  function Lookup(id: int, data: seq<Category>): Category {
    LookupPrefix(id, data, |data|)
  }

  /** CategoryOfId returns the last record with the id asked for, and the zero value if there is none. */
  lemma LookupIsLastMatch(id: int, data: seq<Category>)
    ensures !Resolves(id, data) ==> Lookup(id, data) == Zero
    ensures Resolves(id, data) ==> exists k :: LastIdAt(id, data, |data|, k) && Lookup(id, data) == data[k]
  {
    if k0 :| 0 <= k0 < |data| && data[k0].id == id {
      LookupPrefixHit(id, data, |data|, k0);
    } else {
      LookupPrefixMiss(id, data, |data|);
    }
  }

  /** CategoryOfId: a forward scan that overwrites `target` on every match. */
  method CategoryOfId(id: int, data: seq<Category>) returns (target: Category)
    ensures target == Lookup(id, data)
  {
    target := Zero;
    for i := 0 to |data|
      invariant target == LookupPrefix(id, data, i)
    {
      if data[i].id == id {
        target := data[i];
      }
    }
  }

  // ---------------------------------------------------------------------------
  // Ancestors and AnscestorIs

  /** The first `n` ids of `ids`, each resolved through Lookup, in order. */
  function ResolvePrefix(ids: seq<int>, data: seq<Category>, n: nat): (r: seq<Category>)
    requires n <= |ids|
    ensures |r| == n
    ensures forall i :: 0 <= i < n ==> r[i] == Lookup(ids[i], data)
    decreases n
  {
    if n == 0 then [] else ResolvePrefix(ids, data, n - 1) + [Lookup(ids[n - 1], data)]
  }

  /** The list `c.Ancestors(data)` returns: `c` itself, then its ancestor ids resolved in stored order. */
  function AncestorChain(c: Category, data: seq<Category>): seq<Category> {
    [c] + ResolvePrefix(c.ancestorIds, data, |c.ancestorIds|)
  }

  /** The ancestor list has one entry more than `c.ancestorIds`: `c` first, then each id's record. */
  lemma AncestorChainShape(c: Category, data: seq<Category>)
    ensures |AncestorChain(c, data)| == 1 + |c.ancestorIds| && AncestorChain(c, data)[0] == c
    ensures forall i :: 0 <= i < |c.ancestorIds| ==>
              AncestorChain(c, data)[i + 1] == Lookup(c.ancestorIds[i], data)
  {
  }

  /** Some element of `s` has id `id`. */
  predicate HasId(s: seq<Category>, id: int) {
    exists i :: 0 <= i < |s| && s[i].id == id
  }

  /** The answer of `c.AnscestorIs(t, data)`. */
  predicate IsAncestor(c: Category, t: Category, data: seq<Category>) {
    HasId(AncestorChain(c, data), t.id)
  }

  /** Category.Ancestors: start from `[c]` and append one looked-up record per ancestor id. */
  method Ancestors(c: Category, data: seq<Category>) returns (parents: seq<Category>)
    ensures parents == AncestorChain(c, data)
  {
    parents := [c];
    for i := 0 to |c.ancestorIds|
      invariant parents == [c] + ResolvePrefix(c.ancestorIds, data, i)
    {
      var ancestor := CategoryOfId(c.ancestorIds[i], data);
      parents := parents + [ancestor];
    }
  }

  /** Category.AnscestorIs: scan the ancestor list for the target's id, returning at the first hit. */
  method AnscestorIs(c: Category, target: Category, data: seq<Category>) returns (b: bool)
    ensures b == IsAncestor(c, target, data)
  {
    var parents := Ancestors(c, data);
    for i := 0 to |parents|
      invariant forall j :: 0 <= j < i ==> parents[j].id != target.id
    {
      if parents[i].id == target.id {
        assert HasId(parents, target.id);
        return true;
      }
    }
    assert !HasId(parents, target.id);
    return false;
  }

  /** AnscestorsOf: the exported wrapper around Category.Ancestors. */
  method AnscestorsOf(c: Category, data: seq<Category>) returns (r: seq<Category>)
    ensures r == AncestorChain(c, data)
  {
    r := Ancestors(c, data);
  }

  // ---------------------------------------------------------------------------
  // contains, Descendants and DescendantIs

  /** contains: a scan of `s` that returns at the first occurrence of `e`. */
  method Contains(s: seq<int>, e: int) returns (found: bool)
    ensures found <==> e in s
  {
    for i := 0 to |s|
      invariant forall j :: 0 <= j < i ==> s[j] != e
    {
      if s[i] == e {
        return true;
      }
    }
    return false;
  }

  /** Those of the first `n` records, in order, whose ancestor ids contain `id`. */
  function BelowPrefix(id: int, data: seq<Category>, n: nat): (r: seq<Category>)
    requires n <= |data|
    ensures |r| <= n
    decreases n
  {
    if n == 0 then []
    else BelowPrefix(id, data, n - 1) + (if id in data[n - 1].ancestorIds then [data[n - 1]] else [])
  }

  /** The records of `data`, in order, that list `id` among their ancestors. */
  function Below(id: int, data: seq<Category>): seq<Category> {
    BelowPrefix(id, data, |data|)
  }

  /** Exactly the records among the first `n` that list `id` as an ancestor are selected. */
  lemma {:induction false} BelowPrefixMembers(id: int, data: seq<Category>, n: nat)
    requires n <= |data|
    ensures forall x :: x in BelowPrefix(id, data, n) <==> x in data[..n] && id in x.ancestorIds
    decreases n
  {
    if n > 0 {
      BelowPrefixMembers(id, data, n - 1);
      assert data[..n] == data[..n - 1] + [data[n - 1]];
    }
  }

  /** The list `c.Descendants(data)` returns: `c` itself, then every record that lists `c.id` as an ancestor. */
  function DescendantList(c: Category, data: seq<Category>): seq<Category> {
    [c] + Below(c.id, data)
  }

  /** The descendant list is `c` followed by exactly the records that list `c.id`, so it is at most one longer than `data`. */
  lemma DescendantListShape(c: Category, data: seq<Category>)
    ensures 1 <= |DescendantList(c, data)| <= 1 + |data| && DescendantList(c, data)[0] == c
    ensures forall x :: x in DescendantList(c, data)[1..] <==> x in data && c.id in x.ancestorIds
  {
    BelowPrefixMembers(c.id, data, |data|);
    assert data[..|data|] == data;
    assert DescendantList(c, data)[1..] == Below(c.id, data);
  }

  /** The answer of `c.DescendantIs(t, data)`. */
  predicate IsDescendant(c: Category, t: Category, data: seq<Category>) {
    HasId(DescendantList(c, data), t.id)
  }

  /** Category.Descendants: start from `[c]` and append each record whose ancestor ids contain `c.id`. */
  method Descendants(c: Category, data: seq<Category>) returns (descendants: seq<Category>)
    ensures descendants == DescendantList(c, data)
  {
    descendants := [c];
    for i := 0 to |data|
      invariant descendants == [c] + BelowPrefix(c.id, data, i)
    {
      var below := Contains(data[i].ancestorIds, c.id);
      if below {
        descendants := descendants + [data[i]];
      }
    }
  }

  /** Category.DescendantIs: scan the descendant list for the target's id, returning at the first hit. */
  method DescendantIs(c: Category, target: Category, data: seq<Category>) returns (b: bool)
    ensures b == IsDescendant(c, target, data)
  {
    var descendants := Descendants(c, data);
    for i := 0 to |descendants|
      invariant forall j :: 0 <= j < i ==> descendants[j].id != target.id
    {
      if descendants[i].id == target.id {
        return true;
      }
    }
    return false;
  }

  /** DescendantsOf: the exported wrapper around Category.Descendants. */
  method DescendantsOf(c: Category, data: seq<Category>) returns (r: seq<Category>)
    ensures r == DescendantList(c, data)
  {
    r := Descendants(c, data);
  }

  // ---------------------------------------------------------------------------
  // RootOf

  /** The test RootOf applies to each record `d`: it has no ancestors and is an ancestor of `c`. */
  predicate RootCandidate(d: Category, c: Category) {
    |d.ancestorIds| == 0 && d.id in c.ancestorIds
  }

  /** `data[k]` is the last of the first `n` records that passes RootOf's test for `c`. */
  predicate LastRootAt(c: Category, data: seq<Category>, n: nat, k: int)
    requires n <= |data|
  {
    0 <= k < n && RootCandidate(data[k], c) && forall j :: k < j < n ==> !RootCandidate(data[j], c)
  }

  /** What RootOf finds among the first `n` records. */
  function RootPrefix(c: Category, data: seq<Category>, n: nat): Category
    requires n <= |data|
    decreases n
  {
    if n == 0 then Zero
    else if RootCandidate(data[n - 1], c) then data[n - 1]
    else RootPrefix(c, data, n - 1)
  }

  /** Without a candidate among the first `n` records, RootOf's scan yields the zero value. */
  lemma {:induction false} RootPrefixMiss(c: Category, data: seq<Category>, n: nat)
    requires n <= |data|
    requires forall k :: 0 <= k < n ==> !RootCandidate(data[k], c)
    ensures RootPrefix(c, data, n) == Zero
    decreases n
  {
    if n > 0 {
      RootPrefixMiss(c, data, n - 1);
    }
  }

  /** With a candidate among the first `n` records, RootOf's scan yields the last one. */
  lemma {:induction false} RootPrefixHit(c: Category, data: seq<Category>, n: nat, k0: nat)
    requires n <= |data| && k0 < n && RootCandidate(data[k0], c)
    ensures exists k :: LastRootAt(c, data, n, k) && RootPrefix(c, data, n) == data[k]
    decreases n
  {
    if RootCandidate(data[n - 1], c) {
      assert LastRootAt(c, data, n, n - 1);
    } else {
      RootPrefixHit(c, data, n - 1, k0);
      var k :| LastRootAt(c, data, n - 1, k) && RootPrefix(c, data, n - 1) == data[k];
      assert RootPrefix(c, data, n) == RootPrefix(c, data, n - 1);
      assert forall j :: k < j < n - 1 ==> !RootCandidate(data[j], c);
      assert !RootCandidate(data[n - 1], c);
      assert LastRootAt(c, data, n, k);
    }
  }

  /**
   * The record RootOf(c, data) returns.
   */
  function RootIn(c: Category, data: seq<Category>): Category {
    RootPrefix(c, data, |data|)
  }

  /** RootOf returns the last candidate record, and the zero value if there is none; either way it has no ancestors. */
  lemma RootIsLastCandidate(c: Category, data: seq<Category>)
    ensures (forall k :: 0 <= k < |data| ==> !RootCandidate(data[k], c)) ==> RootIn(c, data) == Zero
    ensures (exists k :: 0 <= k < |data| && RootCandidate(data[k], c)) ==>
              exists k :: LastRootAt(c, data, |data|, k) && RootIn(c, data) == data[k]
    ensures RootIn(c, data).ancestorIds == []
  {
    if k0 :| 0 <= k0 < |data| && RootCandidate(data[k0], c) {
      RootPrefixHit(c, data, |data|, k0);
      var r := RootIn(c, data);
      var k :| LastRootAt(c, data, |data|, k) && r == data[k];
    } else {
      RootPrefixMiss(c, data, |data|);
    }
  }

  /** RootOf: a forward scan that overwrites `root` on every candidate. */
  method RootOf(c: Category, data: seq<Category>) returns (root: Category)
    ensures root == RootIn(c, data)
  {
    root := Zero;
    for i := 0 to |data|
      invariant root == RootPrefix(c, data, i)
    {
      if |data[i].ancestorIds| == 0 {
        var listed := Contains(c.ancestorIds, data[i].id);
        if listed {
          root := data[i];
        }
      }
    }
  }

  // ---------------------------------------------------------------------------
  // Properties of the queries

  /** No two records share an id. */
  predicate UniqueIds(data: seq<Category>) {
    forall i, j :: 0 <= i < |data| && 0 <= j < |data| && data[i].id == data[j].id ==> i == j
  }

  /** A resolving id is looked up to a record of `data` that carries that id. */
  lemma LookupResolved(id: int, data: seq<Category>)
    requires Resolves(id, data)
    ensures Lookup(id, data).id == id && Lookup(id, data) in data
  {
    LookupIsLastMatch(id, data);
    var r := Lookup(id, data);
    var k :| LastIdAt(id, data, |data|, k) && r == data[k];
  }

  /** With unique ids, looking up the id of a record of `data` gives that record back. */
  lemma LookupUnique(x: Category, data: seq<Category>)
    requires UniqueIds(data) && x in data
    ensures Lookup(x.id, data) == x
  {
    var i :| 0 <= i < |data| && data[i] == x;
    LookupIsLastMatch(x.id, data);
    var r := Lookup(x.id, data);
    var k :| LastIdAt(x.id, data, |data|, k) && r == data[k];
    assert data[i].id == data[k].id;
  }

  /** AnscestorIs is reflexive, whatever `data` holds. */
  lemma AncestorIsReflexive(c: Category, data: seq<Category>)
    ensures IsAncestor(c, c, data)
  {
    AncestorChainShape(c, data);
    assert AncestorChain(c, data)[0].id == c.id;
  }

  /** When every ancestor id resolves, `t` is an ancestor of `c` exactly when its id is `c`'s or is listed in `c`. */
  lemma AncestorIsIff(c: Category, t: Category, data: seq<Category>)
    requires AllResolve(c.ancestorIds, data)
    ensures IsAncestor(c, t, data) <==> t.id in [c.id] + c.ancestorIds
  {
    AncestorChainShape(c, data);
    var r := AncestorChain(c, data);
    if IsAncestor(c, t, data) {
      var i :| 0 <= i < |r| && r[i].id == t.id;
      if i > 0 {
        LookupResolved(c.ancestorIds[i - 1], data);
        assert t.id == c.ancestorIds[i - 1];
      }
    }
    if t.id in [c.id] + c.ancestorIds {
      if t.id == c.id {
        assert r[0].id == t.id;
      } else {
        var j :| 0 <= j < |c.ancestorIds| && c.ancestorIds[j] == t.id;
        LookupResolved(c.ancestorIds[j], data);
        assert r[j + 1].id == t.id;
      }
    }
  }

  /** A dangling ancestor id is looked up to the zero value, so every target whose id is 0 counts as an ancestor. */
  lemma DanglingAncestorMatchesZeroId(c: Category, t: Category, data: seq<Category>)
    requires !AllResolve(c.ancestorIds, data) && t.id == 0
    ensures IsAncestor(c, t, data)
  {
    AncestorChainShape(c, data);
    var i :| 0 <= i < |c.ancestorIds| && !Resolves(c.ancestorIds[i], data);
    LookupIsLastMatch(c.ancestorIds[i], data);
    assert AncestorChain(c, data)[i + 1] == Zero;
  }

  /** `t` is a descendant of `c` exactly when it has `c`'s id or some record with `t`'s id lists `c.id` as an ancestor. */
  lemma DescendantIsIff(c: Category, t: Category, data: seq<Category>)
    ensures IsDescendant(c, t, data) <==>
              t.id == c.id || exists k :: 0 <= k < |data| && data[k].id == t.id && c.id in data[k].ancestorIds
  {
    var r := DescendantList(c, data);
    DescendantListShape(c, data);
    if IsDescendant(c, t, data) {
      var i :| 0 <= i < |r| && r[i].id == t.id;
      if i > 0 {
        assert r[i] in r[1..];
        var k :| 0 <= k < |data| && data[k] == r[i];
      }
    }
    if k :| 0 <= k < |data| && data[k].id == t.id && c.id in data[k].ancestorIds {
      assert data[k] in r[1..];
      var i :| 0 <= i < |r[1..]| && r[1..][i] == data[k];
      assert r[i + 1].id == t.id;
    } else if t.id == c.id {
      assert r[0].id == t.id;
    }
  }

  /** DescendantIs is reflexive, whatever `data` holds. */
  lemma DescendantIsReflexive(c: Category, data: seq<Category>)
    ensures IsDescendant(c, c, data)
  {
    DescendantIsIff(c, c, data);
  }

  /** Two record lists that agree on their first `n` records select the same records among them. */
  lemma {:induction false} BelowPrefixAgree(id: int, d1: seq<Category>, d2: seq<Category>, n: nat)
    requires n <= |d1| && n <= |d2| && d1[..n] == d2[..n]
    ensures BelowPrefix(id, d1, n) == BelowPrefix(id, d2, n)
    decreases n
  {
    if n > 0 {
      assert d1[n - 1] == d1[..n][n - 1] == d2[n - 1];
      assert d1[..n - 1] == d1[..n][..n - 1];
      assert d2[..n - 1] == d2[..n][..n - 1];
      BelowPrefixAgree(id, d1, d2, n - 1);
    }
  }

  lemma {:induction false} BelowPrefixAppend(id: int, a: seq<Category>, b: seq<Category>, m: nat)
    requires m <= |b|
    ensures BelowPrefix(id, a + b, |a| + m) == Below(id, a) + BelowPrefix(id, b, m)
    decreases m
  {
    if m == 0 {
      assert (a + b)[..|a|] == a[..|a|];
      BelowPrefixAgree(id, a + b, a, |a|);
    } else {
      BelowPrefixAppend(id, a, b, m - 1);
      var x := b[m - 1];
      assert (a + b)[|a| + m - 1] == x;
      var step := if id in x.ancestorIds then [x] else [];
      assert BelowPrefix(id, a + b, |a| + m) == BelowPrefix(id, a + b, |a| + m - 1) + step;
      assert BelowPrefix(id, b, m) == BelowPrefix(id, b, m - 1) + step;
      assert Below(id, a) + BelowPrefix(id, b, m - 1) + step == Below(id, a) + (BelowPrefix(id, b, m - 1) + step);
    }
  }

  /** Descendants keeps `data`'s order: the selection over a concatenation is the concatenation of the selections. */
  lemma BelowAppend(id: int, a: seq<Category>, b: seq<Category>)
    ensures Below(id, a + b) == Below(id, a) + Below(id, b)
  {
    BelowPrefixAppend(id, a, b, |b|);
  }

  /** RootOf's answer has no ancestors, so its own ancestor list is just itself. */
  lemma RootHasNoProperAncestor(c: Category, data: seq<Category>)
    ensures RootIn(c, data).ancestorIds == []
    ensures AncestorChain(RootIn(c, data), data) == [RootIn(c, data)]
  {
    RootIsLastCandidate(c, data);
  }

  /** Whenever some record passes RootOf's test, the answer is a record of `data` and an ancestor of `c`. */
  lemma RootIsAncestor(c: Category, data: seq<Category>)
    requires exists k :: 0 <= k < |data| && RootCandidate(data[k], c)
    ensures RootIn(c, data) in data && RootCandidate(RootIn(c, data), c)
    ensures IsAncestor(c, RootIn(c, data), data)
  {
    RootIsLastCandidate(c, data);
    var r := RootIn(c, data);
    var k :| LastRootAt(c, data, |data|, k) && r == data[k];
    var j :| 0 <= j < |c.ancestorIds| && c.ancestorIds[j] == r.id;
    AncestorChainShape(c, data);
    LookupResolved(r.id, data);
    assert AncestorChain(c, data)[j + 1].id == r.id;
  }

  /** A category with no ancestors gets the zero value from RootOf, not itself. */
  lemma RootOfRootIsZero(c: Category, data: seq<Category>)
    requires c.ancestorIds == []
    ensures RootIn(c, data) == Zero
  {
    RootIsLastCandidate(c, data);
  }

  /** Hence RootOf is not idempotent: applied twice it always gives the zero value. */
  lemma RootOfTwiceIsZero(c: Category, data: seq<Category>)
    ensures RootIn(RootIn(c, data), data) == Zero
  {
    RootHasNoProperAncestor(c, data);
    RootOfRootIsZero(RootIn(c, data), data);
  }

  /**
   * RootOf as the closure-table version answers it and as a root query is
   * meant to work: a category without ancestor ids is its own root; any
   * other category gets RootOf's answer.
   */
  function RootOrSelf(c: Category, data: seq<Category>): Category {
    if c.ancestorIds == [] then c else RootIn(c, data)
  }

  /** The corrected root query is idempotent, and its answer has no proper ancestor. */
  lemma RootOrSelfIsIdempotent(c: Category, data: seq<Category>)
    ensures RootOrSelf(c, data).ancestorIds == []
    ensures AncestorChain(RootOrSelf(c, data), data) == [RootOrSelf(c, data)]
    ensures RootOrSelf(RootOrSelf(c, data), data) == RootOrSelf(c, data)
  {
    RootHasNoProperAncestor(c, data);
  }

  /** Every ancestor of a record is listed by each record that lists the first one. */
  predicate AncestorClosed(data: seq<Category>) {
    forall i, j :: 0 <= i < |data| && 0 <= j < |data| && data[j].id in data[i].ancestorIds ==>
      forall x :: x in data[j].ancestorIds ==> x in data[i].ancestorIds
  }

  /** A data set the queries answer cleanly on: unique ids, no dangling ancestor id, ancestor lists closed. */
  predicate WellFormed(data: seq<Category>) {
    && UniqueIds(data)
    && (forall i :: 0 <= i < |data| ==> AllResolve(data[i].ancestorIds, data))
    && AncestorClosed(data)
  }

  /** With unique ids and resolving ancestors, `b` is an ancestor of `a` exactly when `a` is a descendant of `b`. */
  lemma AncestorDescendantDuality(a: Category, b: Category, data: seq<Category>)
    requires UniqueIds(data) && a in data && AllResolve(a.ancestorIds, data)
    ensures IsAncestor(a, b, data) <==> IsDescendant(b, a, data)
  {
    AncestorIsIff(a, b, data);
    DescendantIsIff(b, a, data);
    if k :| 0 <= k < |data| && data[k].id == a.id && b.id in data[k].ancestorIds {
      LookupUnique(a, data);
      LookupUnique(data[k], data);
    }
  }

  /** On a well-formed data set AnscestorIs is transitive. */
  lemma AncestorIsTransitive(a: Category, b: Category, t: Category, data: seq<Category>)
    requires WellFormed(data) && a in data && b in data
    requires IsAncestor(a, b, data) && IsAncestor(b, t, data)
    ensures IsAncestor(a, t, data)
  {
    var i :| 0 <= i < |data| && data[i] == a;
    var j :| 0 <= j < |data| && data[j] == b;
    AncestorIsIff(a, b, data);
    AncestorIsIff(b, t, data);
    AncestorIsIff(a, t, data);
    if b.id == a.id {
      assert i == j;
    }
  }

  // ---------------------------------------------------------------------------
  // The sample data set

  /** AllCategories: two roots (1 and 2); 29 and 30 under 1; 38 under 2; 200 under 29. */
  const AllCategories: seq<Category> := [
    Category(1, 1, [], "ファッション"),
    Category(2, 2, [], "家具・インテリア"),
    Category(29, 1, [1], "レディース"),
    Category(30, 1, [1], "メンズ"),
    Category(38, 2, [2], "収納家具"),
    Category(200, 29, [1, 29], "靴")
  ]

  /** The ids of `s`, in order. */
  function Ids(s: seq<Category>): seq<int> {
    seq(|s|, i requires 0 <= i < |s| => s[i].id)
  }

  /** Every ancestor id of every sample record resolves. */
  lemma SampleResolves()
    ensures forall i :: 0 <= i < |AllCategories| ==> AllResolve(AllCategories[i].ancestorIds, AllCategories)
  {
    var d := AllCategories;
    assert Resolves(1, d) by { assert d[0].id == 1; }
    assert Resolves(2, d) by { assert d[1].id == 2; }
    assert Resolves(29, d) by { assert d[2].id == 29; }
    forall i | 0 <= i < |d| ensures AllResolve(d[i].ancestorIds, d) {
      assert i == 0 || i == 1 || i == 2 || i == 3 || i == 4 || i == 5;
    }
  }

  /** The sample data set has unique ids, no dangling ancestor id and closed ancestor lists. */
  lemma SampleWellFormed()
    ensures WellFormed(AllCategories)
  {
    var d := AllCategories;
    SampleResolves();
    forall i, j | 0 <= i < |d| && 0 <= j < |d| && d[j].id in d[i].ancestorIds
      ensures forall x :: x in d[j].ancestorIds ==> x in d[i].ancestorIds
    {
      assert i == 0 || i == 1 || i == 2 || i == 3 || i == 4 || i == 5;
    }
  }

  /** The cases of TestAnscestorIs: 1 and 1, 30 and 1, 200 and 1 are ancestor pairs; 2 and 1 are not. */
  lemma SampleAnscestorIs()
    ensures IsAncestor(AllCategories[0], AllCategories[0], AllCategories)
    ensures IsAncestor(AllCategories[3], AllCategories[0], AllCategories)
    ensures !IsAncestor(AllCategories[1], AllCategories[0], AllCategories)
    ensures IsAncestor(AllCategories[5], AllCategories[0], AllCategories)
  {
    var d := AllCategories;
    SampleResolves();
    assert AllResolve(d[1].ancestorIds, d) && AllResolve(d[3].ancestorIds, d) && AllResolve(d[5].ancestorIds, d);
    AncestorIsReflexive(d[0], d);
    AncestorIsIff(d[3], d[0], d);
    AncestorIsIff(d[1], d[0], d);
    AncestorIsIff(d[5], d[0], d);
  }

  /** The ancestor list of 200 is 200 itself, then 1, then 29. */
  lemma SampleAncestorsOf200()
    ensures Ids(AncestorChain(AllCategories[5], AllCategories)) == [200, 1, 29]
  {
    var d := AllCategories;
    AncestorChainShape(d[5], d);
    assert Lookup(1, d) == LookupPrefix(1, d, 6) == d[0];
    assert Lookup(29, d) == LookupPrefix(29, d, 6) == d[2];
  }

  /** The first expected id list of TestDescendantsOf: the descendants of 1 are 1, 29, 30 and 200. */
  lemma SampleDescendantsOf1()
    ensures Ids(DescendantList(AllCategories[0], AllCategories)) == [1, 29, 30, 200]
  {
    var d := AllCategories;
    assert BelowPrefix(1, d, 2) == [];
    assert BelowPrefix(1, d, 3) == [d[2]];
    assert BelowPrefix(1, d, 4) == [d[2], d[3]];
    assert BelowPrefix(1, d, 5) == [d[2], d[3]];
    assert BelowPrefix(1, d, 6) == [d[2], d[3], d[5]];
    var desc := DescendantList(d[0], d);
    assert desc == [d[0], d[2], d[3], d[5]];
  }

  /** The other expected id lists of TestDescendantsOf: [2, 38] for 2 and [29, 200] for 29. */
  lemma SampleDescendantsOf2And29()
    ensures Ids(DescendantList(AllCategories[1], AllCategories)) == [2, 38]
    ensures Ids(DescendantList(AllCategories[2], AllCategories)) == [29, 200]
  {
    var d := AllCategories;
    assert BelowPrefix(2, d, 4) == [];
    assert BelowPrefix(2, d, 6) == [d[4]];
    assert Below(2, d) == BelowPrefix(2, d, 6);
    assert BelowPrefix(29, d, 5) == [];
    assert BelowPrefix(29, d, 6) == [d[5]];
    assert Below(29, d) == BelowPrefix(29, d, 6);
  }

  /** RootOf(200), RootOf(29) and RootOf(30) are category 1 and RootOf(38) is 2; RootOf(1) is the zero value, since 1 has no ancestors. */
  lemma SampleRootOf()
    ensures RootIn(AllCategories[5], AllCategories) == AllCategories[0]
    ensures RootIn(AllCategories[4], AllCategories) == AllCategories[1]
    ensures RootIn(AllCategories[2], AllCategories) == AllCategories[0]
    ensures RootIn(AllCategories[3], AllCategories) == AllCategories[0]
    ensures RootIn(AllCategories[0], AllCategories) == Zero
  {
    var d := AllCategories;
    assert RootIn(d[5], d) == RootPrefix(d[5], d, 6);
    assert RootIn(d[4], d) == RootPrefix(d[4], d, 6);
    assert RootIn(d[2], d) == RootPrefix(d[2], d, 6);
    assert RootIn(d[3], d) == RootPrefix(d[3], d, 6);
  }
}
