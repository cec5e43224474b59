/**
 * The closure-table encoding of a category tree (closure_table/main.go).
 *
 * Categories carry only an id and a name; the tree is a list of paths
 * (ancestor id, descendant id, path length), one per ancestor/descendant pair
 * including the path of length 0 from each category to itself. Queries scan
 * the path list; none of them changes anything. Each query is a method with
 * the loop of the Go code, proved equal to a specification function; the
 * properties of the queries are lemmas about those functions.
 */
module ClosureTable {

  datatype Category = Category(id: int, name: string)

  /** One row of the closure table; the path length plays no part in any query. */
  datatype CategoryPath = CategoryPath(ancestorId: int, descendantId: int, pathLength: int)

  /** The value a Go `Category` variable holds before anything is assigned to it. */
  const Zero := Category(0, "")

  // ---------------------------------------------------------------------------
  // Lookup by id (CategoryOfId)

  /** Some category of `cats` has id `id`. */
  predicate Resolves(id: int, cats: seq<Category>) {
    exists k :: 0 <= k < |cats| && cats[k].id == id
  }

  /** `cats[k]` is the last of the first `n` categories whose id is `id`. */
  predicate LastIdAt(id: int, cats: seq<Category>, n: nat, k: int)
    requires n <= |cats|
  {
    0 <= k < n && cats[k].id == id && forall j :: k < j < n ==> cats[j].id != id
  }

  /** What CategoryOfId finds among the first `n` categories: the last match, else the zero value. */
  function LookupPrefix(id: int, cats: seq<Category>, n: nat): Category
    requires n <= |cats|
    decreases n
  {
    if n == 0 then Zero
    else if cats[n - 1].id == id then cats[n - 1]
    else LookupPrefix(id, cats, n - 1)
  }

  /** Without a matching category among the first `n`, the scan yields the zero value. */
  lemma {:induction false} LookupPrefixMiss(id: int, cats: seq<Category>, n: nat)
    requires n <= |cats|
    requires forall k :: 0 <= k < n ==> cats[k].id != id
    ensures LookupPrefix(id, cats, n) == Zero
    decreases n
  {
    if n > 0 {
      LookupPrefixMiss(id, cats, n - 1);
    }
  }

  /** With a matching category among the first `n`, the scan yields the last one. */
  lemma {:induction false} LookupPrefixHit(id: int, cats: seq<Category>, n: nat, k0: nat)
    requires n <= |cats| && k0 < n && cats[k0].id == id
    ensures exists k :: LastIdAt(id, cats, n, k) && LookupPrefix(id, cats, n) == cats[k]
    decreases n
  {
    if cats[n - 1].id == id {
      assert LastIdAt(id, cats, n, n - 1);
    } else {
      LookupPrefixHit(id, cats, n - 1, k0);
      var k :| LastIdAt(id, cats, n - 1, k) && LookupPrefix(id, cats, n - 1) == cats[k];
      assert LastIdAt(id, cats, n, k);
    }
  }

  /** The category CategoryOfId(id, cats) returns. */
  function Lookup(id: int, cats: seq<Category>): Category {
    LookupPrefix(id, cats, |cats|)
  }

  /** CategoryOfId returns the last category with the id asked for, and the zero value if there is none. */
  lemma LookupIsLastMatch(id: int, cats: seq<Category>)
    ensures !Resolves(id, cats) ==> Lookup(id, cats) == Zero
    ensures Resolves(id, cats) ==> exists k :: LastIdAt(id, cats, |cats|, k) && Lookup(id, cats) == cats[k]
  {
    if k0 :| 0 <= k0 < |cats| && cats[k0].id == id {
      LookupPrefixHit(id, cats, |cats|, k0);
    } else {
      LookupPrefixMiss(id, cats, |cats|);
    }
  }

  /** A resolving id is looked up to a category of `cats` that carries that id. */
  lemma LookupResolved(id: int, cats: seq<Category>)
    requires Resolves(id, cats)
    ensures Lookup(id, cats).id == id && Lookup(id, cats) in cats
  {
    LookupIsLastMatch(id, cats);
    var r := Lookup(id, cats);
    var k :| LastIdAt(id, cats, |cats|, k) && r == cats[k];
  }

  /** CategoryOfId: a forward scan that overwrites `target` on every match. */
  method CategoryOfId(id: int, cats: seq<Category>) returns (target: Category)
    ensures target == Lookup(id, cats)
  {
    target := Zero;
    for i := 0 to |cats|
      invariant target == LookupPrefix(id, cats, i)
    {
      if cats[i].id == id {
        target := cats[i];
      }
    }
  }

  // ---------------------------------------------------------------------------
  // Ancestors and Descendants

  /**
   * Ancestors and Descendants are the same scan in opposite directions: going
   * Up, a path is selected when its descendant end is the category and its
   * ancestor end is looked up; going Down, the other way round.
   */
  datatype Direction = Up | Down

  /** The end of `p` a query compares with the category's id. */
  function Near(dir: Direction, p: CategoryPath): int {
    if dir == Up then p.descendantId else p.ancestorId
  }

  /** The end of `p` a query looks up. */
  function Far(dir: Direction, p: CategoryPath): int {
    if dir == Up then p.ancestorId else p.descendantId
  }

  /** The looked-up far ends of those of the first `n` paths whose near end is `c`'s id, in order. */
  function RelatedPrefix(dir: Direction, c: Category, cats: seq<Category>, paths: seq<CategoryPath>, n: nat): (r: seq<Category>)
    requires n <= |paths|
    ensures |r| <= n
    decreases n
  {
    if n == 0 then []
    else
      var p := paths[n - 1];
      RelatedPrefix(dir, c, cats, paths, n - 1) + (if Near(dir, p) == c.id then [Lookup(Far(dir, p), cats)] else [])
  }

  /** The list `c.Ancestors(cats, paths)` returns. */
  function AncestorsIn(c: Category, cats: seq<Category>, paths: seq<CategoryPath>): seq<Category> {
    RelatedPrefix(Up, c, cats, paths, |paths|)
  }

  /** The list `c.Descendants(cats, paths)` returns. */
  function DescendantsIn(c: Category, cats: seq<Category>, paths: seq<CategoryPath>): seq<Category> {
    RelatedPrefix(Down, c, cats, paths, |paths|)
  }

  /** Category.Ancestors: append the looked-up ancestor end of each path that ends at `c`. */
  method Ancestors(c: Category, cats: seq<Category>, paths: seq<CategoryPath>) returns (anscestors: seq<Category>)
    ensures anscestors == AncestorsIn(c, cats, paths)
  {
    anscestors := [];
    for i := 0 to |paths|
      invariant anscestors == RelatedPrefix(Up, c, cats, paths, i)
    {
      if paths[i].descendantId == c.id {
        var a := CategoryOfId(paths[i].ancestorId, cats);
        anscestors := anscestors + [a];
      }
    }
  }

  /** Category.Descendants: append the looked-up descendant end of each path that starts at `c`. */
  method Descendants(c: Category, cats: seq<Category>, paths: seq<CategoryPath>) returns (descendants: seq<Category>)
    ensures descendants == DescendantsIn(c, cats, paths)
  {
    descendants := [];
    for i := 0 to |paths|
      invariant descendants == RelatedPrefix(Down, c, cats, paths, i)
    {
      if paths[i].ancestorId == c.id {
        var d := CategoryOfId(paths[i].descendantId, cats);
        descendants := descendants + [d];
      }
    }
  }

  /** AnscestorsOf: the exported wrapper around Category.Ancestors. */
  method AnscestorsOf(c: Category, cats: seq<Category>, paths: seq<CategoryPath>) returns (r: seq<Category>)
    ensures r == AncestorsIn(c, cats, paths)
  {
    r := Ancestors(c, cats, paths);
  }

  /** DescendantsOf: the exported wrapper around Category.Descendants. */
  method DescendantsOf(c: Category, cats: seq<Category>, paths: seq<CategoryPath>) returns (r: seq<Category>)
    ensures r == DescendantsIn(c, cats, paths)
  {
    r := Descendants(c, cats, paths);
  }

  /** The indices among the first `n` paths whose near end is `id`. */
  function Selected(dir: Direction, id: int, paths: seq<CategoryPath>, n: nat): set<nat>
    requires n <= |paths|
  {
    set k: nat | k < n && Near(dir, paths[k]) == id
  }

  /** The scan has one entry per selected path. */
  lemma {:induction false} RelatedPrefixCount(dir: Direction, c: Category, cats: seq<Category>, paths: seq<CategoryPath>, n: nat)
    requires n <= |paths|
    ensures |RelatedPrefix(dir, c, cats, paths, n)| == |Selected(dir, c.id, paths, n)|
    decreases n
  {
    if n > 0 {
      RelatedPrefixCount(dir, c, cats, paths, n - 1);
      var before := Selected(dir, c.id, paths, n - 1);
      if Near(dir, paths[n - 1]) == c.id {
        assert Selected(dir, c.id, paths, n) == before + {n - 1};
      } else {
        assert Selected(dir, c.id, paths, n) == before;
      }
    }
  }

  /** The scan yields exactly the looked-up far ends of the selected paths. */
  lemma {:induction false} RelatedPrefixMembers(dir: Direction, c: Category, cats: seq<Category>, paths: seq<CategoryPath>, n: nat)
    requires n <= |paths|
    ensures forall x :: x in RelatedPrefix(dir, c, cats, paths, n) <==>
              exists k :: 0 <= k < n && Near(dir, paths[k]) == c.id && x == Lookup(Far(dir, paths[k]), cats)
    decreases n
  {
    if n > 0 {
      RelatedPrefixMembers(dir, c, cats, paths, n - 1);
      var p := paths[n - 1];
      var step := if Near(dir, p) == c.id then [Lookup(Far(dir, p), cats)] else [];
      assert RelatedPrefix(dir, c, cats, paths, n) == RelatedPrefix(dir, c, cats, paths, n - 1) + step;
    }
  }

  /** Two path lists that agree on their first `n` paths give the same scan over them. */
  lemma {:induction false} RelatedPrefixAgree(dir: Direction, c: Category, cats: seq<Category>, p1: seq<CategoryPath>, p2: seq<CategoryPath>, n: nat)
    requires n <= |p1| && n <= |p2| && p1[..n] == p2[..n]
    ensures RelatedPrefix(dir, c, cats, p1, n) == RelatedPrefix(dir, c, cats, p2, n)
    decreases n
  {
    if n > 0 {
      assert p1[n - 1] == p1[..n][n - 1] == p2[n - 1];
      assert p1[..n - 1] == p1[..n][..n - 1];
      assert p2[..n - 1] == p2[..n][..n - 1];
      RelatedPrefixAgree(dir, c, cats, p1, p2, n - 1);
    }
  }

  lemma {:induction false} RelatedPrefixAppend(dir: Direction, c: Category, cats: seq<Category>, a: seq<CategoryPath>, b: seq<CategoryPath>, m: nat)
    requires m <= |b|
    ensures RelatedPrefix(dir, c, cats, a + b, |a| + m) ==
              RelatedPrefix(dir, c, cats, a, |a|) + RelatedPrefix(dir, c, cats, b, m)
    decreases m
  {
    if m == 0 {
      assert (a + b)[..|a|] == a[..|a|];
      RelatedPrefixAgree(dir, c, cats, a + b, a, |a|);
    } else {
      RelatedPrefixAppend(dir, c, cats, a, b, m - 1);
      var p := b[m - 1];
      assert (a + b)[|a| + m - 1] == p;
      var step := if Near(dir, p) == c.id then [Lookup(Far(dir, p), cats)] else [];
      assert RelatedPrefix(dir, c, cats, a + b, |a| + m) == RelatedPrefix(dir, c, cats, a + b, |a| + m - 1) + step;
      assert RelatedPrefix(dir, c, cats, b, m) == RelatedPrefix(dir, c, cats, b, m - 1) + step;
      var front := RelatedPrefix(dir, c, cats, a, |a|);
      assert front + RelatedPrefix(dir, c, cats, b, m - 1) + step == front + (RelatedPrefix(dir, c, cats, b, m - 1) + step);
    }
  }

  /** Ancestors has one entry per path ending at `c`: the looked-up ancestor end of that path. */
  lemma AncestorsAreLookedUpPaths(c: Category, cats: seq<Category>, paths: seq<CategoryPath>)
    ensures |AncestorsIn(c, cats, paths)| == |set k: nat | k < |paths| && paths[k].descendantId == c.id|
    ensures forall x :: x in AncestorsIn(c, cats, paths) <==>
              exists k :: 0 <= k < |paths| && paths[k].descendantId == c.id && x == Lookup(paths[k].ancestorId, cats)
  {
    RelatedPrefixCount(Up, c, cats, paths, |paths|);
    RelatedPrefixMembers(Up, c, cats, paths, |paths|);
    assert Selected(Up, c.id, paths, |paths|) == set k: nat | k < |paths| && paths[k].descendantId == c.id;
  }

  /** Descendants has one entry per path starting at `c`: the looked-up descendant end of that path. */
  lemma DescendantsAreLookedUpPaths(c: Category, cats: seq<Category>, paths: seq<CategoryPath>)
    ensures |DescendantsIn(c, cats, paths)| == |set k: nat | k < |paths| && paths[k].ancestorId == c.id|
    ensures forall x :: x in DescendantsIn(c, cats, paths) <==>
              exists k :: 0 <= k < |paths| && paths[k].ancestorId == c.id && x == Lookup(paths[k].descendantId, cats)
  {
    RelatedPrefixCount(Down, c, cats, paths, |paths|);
    RelatedPrefixMembers(Down, c, cats, paths, |paths|);
    assert Selected(Down, c.id, paths, |paths|) == set k: nat | k < |paths| && paths[k].ancestorId == c.id;
  }

  /** Ancestors keeps the order of the path list: over a concatenation it is the concatenation of the answers. */
  lemma AncestorsKeepPathOrder(c: Category, cats: seq<Category>, a: seq<CategoryPath>, b: seq<CategoryPath>)
    ensures AncestorsIn(c, cats, a + b) == AncestorsIn(c, cats, a) + AncestorsIn(c, cats, b)
  {
    RelatedPrefixAppend(Up, c, cats, a, b, |b|);
  }

  /** Descendants keeps the order of the path list in the same way. */
  lemma DescendantsKeepPathOrder(c: Category, cats: seq<Category>, a: seq<CategoryPath>, b: seq<CategoryPath>)
    ensures DescendantsIn(c, cats, a + b) == DescendantsIn(c, cats, a) + DescendantsIn(c, cats, b)
  {
    RelatedPrefixAppend(Down, c, cats, a, b, |b|);
  }

  // ---------------------------------------------------------------------------
  // AnscestorIs and DescendantIs

  /** The answer of `c.AnscestorIs(t, paths)`: some path runs from `t` down to `c`. */
  predicate IsAncestor(c: Category, t: Category, paths: seq<CategoryPath>) {
    exists k :: 0 <= k < |paths| && paths[k].descendantId == c.id && paths[k].ancestorId == t.id
  }

  /** The answer of `c.DescendantIs(t, paths)`: some path runs from `c` down to `t`. */
  predicate IsDescendant(c: Category, t: Category, paths: seq<CategoryPath>) {
    exists k :: 0 <= k < |paths| && paths[k].ancestorId == c.id && paths[k].descendantId == t.id
  }

  /** Category.AnscestorIs: a scan of the paths alone, returning at the first path from `target` to `c`. */
  method AnscestorIs(c: Category, target: Category, paths: seq<CategoryPath>) returns (b: bool)
    ensures b == IsAncestor(c, target, paths)
  {
    for i := 0 to |paths|
      invariant !exists k :: 0 <= k < i && paths[k].descendantId == c.id && paths[k].ancestorId == target.id
    {
      if paths[i].descendantId == c.id && paths[i].ancestorId == target.id {
        return true;
      }
    }
    return false;
  }

  /** Category.DescendantIs: a scan of the paths alone, returning at the first path from `c` to `target`. */
  method DescendantIs(c: Category, target: Category, paths: seq<CategoryPath>) returns (b: bool)
    ensures b == IsDescendant(c, target, paths)
  {
    for i := 0 to |paths|
      invariant !exists k :: 0 <= k < i && paths[k].ancestorId == c.id && paths[k].descendantId == target.id
    {
      if paths[i].ancestorId == c.id && paths[i].descendantId == target.id {
        return true;
      }
    }
    return false;
  }

  /** `b` is an ancestor of `a` exactly when `a` is a descendant of `b`, for every path list. */
  lemma AncestorDescendantDuality(a: Category, b: Category, paths: seq<CategoryPath>)
    ensures IsAncestor(a, b, paths) <==> IsDescendant(b, a, paths)
  {
  }

  /** A category is its own ancestor exactly when the path list holds a path from it to itself. */
  lemma AncestorIsReflexiveIff(c: Category, paths: seq<CategoryPath>)
    ensures IsAncestor(c, c, paths) <==> exists k :: 0 <= k < |paths| && paths[k].ancestorId == paths[k].descendantId == c.id
  {
  }

  // ---------------------------------------------------------------------------
  // RootOf

  /** The test RootOf applies to a looked-up ancestor `a`: `c` is its descendant and `a` has exactly one ancestor. */
  predicate RootCandidate(a: Category, c: Category, cats: seq<Category>, paths: seq<CategoryPath>) {
    IsDescendant(a, c, paths) && |AncestorsIn(a, cats, paths)| == 1
  }

  /** The category RootOf looks up while scanning path `k`. */
  function ScannedAt(cats: seq<Category>, paths: seq<CategoryPath>, k: int): Category
    requires 0 <= k < |paths|
  {
    Lookup(paths[k].ancestorId, cats)
  }

  /** What RootOf finds among the first `n` paths. */
  function RootPrefix(c: Category, cats: seq<Category>, paths: seq<CategoryPath>, n: nat): Category
    requires n <= |paths|
    decreases n
  {
    if n == 0 then Zero
    else if RootCandidate(ScannedAt(cats, paths, n - 1), c, cats, paths) then ScannedAt(cats, paths, n - 1)
    else RootPrefix(c, cats, paths, n - 1)
  }

  /** The categories RootOf looks up, one per path, in path order. */
  function Scanned(cats: seq<Category>, paths: seq<CategoryPath>): seq<Category> {
    seq(|paths|, k requires 0 <= k < |paths| => ScannedAt(cats, paths, k))
  }

  /** The outcomes of RootOf's test, one per path, in path order. */
  function Passed(c: Category, cats: seq<Category>, paths: seq<CategoryPath>): seq<bool> {
    seq(|paths|, k requires 0 <= k < |paths| => RootCandidate(ScannedAt(cats, paths, k), c, cats, paths))
  }

  /** The element of `xs` at the last of the first `n` positions flagged in `flags`, else the zero value. */
  function LastFlagged(xs: seq<Category>, flags: seq<bool>, n: nat): Category
    requires n <= |xs| && n <= |flags|
    decreases n
  {
    if n == 0 then Zero
    else if flags[n - 1] then xs[n - 1]
    else LastFlagged(xs, flags, n - 1)
  }

  /** `k` is the last of the first `n` positions flagged in `flags`. */
  predicate LastFlaggedAt(flags: seq<bool>, n: nat, k: int)
    requires n <= |flags|
  {
    0 <= k < n && flags[k] && forall j :: k < j < n ==> !flags[j]
  }

  /** Without a flag among the first `n` positions, the selection yields the zero value. */
  lemma {:induction false} LastFlaggedMiss(xs: seq<Category>, flags: seq<bool>, n: nat)
    requires n <= |xs| && n <= |flags|
    requires forall k :: 0 <= k < n ==> !flags[k]
    ensures LastFlagged(xs, flags, n) == Zero
    decreases n
  {
    if n > 0 {
      LastFlaggedMiss(xs, flags, n - 1);
    }
  }

  /** With a flag among the first `n` positions, the selection yields the element at the last one. */
  lemma {:induction false} LastFlaggedHit(xs: seq<Category>, flags: seq<bool>, n: nat, k0: nat)
    requires n <= |xs| && n <= |flags| && k0 < n && flags[k0]
    ensures exists k :: LastFlaggedAt(flags, n, k) && LastFlagged(xs, flags, n) == xs[k]
    decreases n
  {
    if flags[n - 1] {
      assert LastFlaggedAt(flags, n, n - 1);
    } else {
      LastFlaggedHit(xs, flags, n - 1, k0);
      var k :| LastFlaggedAt(flags, n - 1, k) && LastFlagged(xs, flags, n - 1) == xs[k];
      assert LastFlaggedAt(flags, n, k);
    }
  }

  /** RootOf's scan is the last-flagged selection over the looked-up categories and the test outcomes. */
  lemma {:induction false} RootPrefixIsLastPassed(c: Category, cats: seq<Category>, paths: seq<CategoryPath>, n: nat)
    requires n <= |paths|
    ensures RootPrefix(c, cats, paths, n) == LastFlagged(Scanned(cats, paths), Passed(c, cats, paths), n)
    decreases n
  {
    if n > 0 {
      RootPrefixIsLastPassed(c, cats, paths, n - 1);
      assert Passed(c, cats, paths)[n - 1] == RootCandidate(ScannedAt(cats, paths, n - 1), c, cats, paths);
      assert Scanned(cats, paths)[n - 1] == ScannedAt(cats, paths, n - 1);
    }
  }

  /** The category RootOf(c, cats, paths) returns. */
  function RootIn(c: Category, cats: seq<Category>, paths: seq<CategoryPath>): Category {
    RootPrefix(c, cats, paths, |paths|)
  }

  /** RootOf: for each path, look up its ancestor end and keep it when it passes the test; the last one wins. */
  method RootOf(c: Category, cats: seq<Category>, paths: seq<CategoryPath>) returns (root: Category)
    ensures root == RootIn(c, cats, paths)
  {
    root := Zero;
    for i := 0 to |paths|
      invariant root == RootPrefix(c, cats, paths, i)
    {
      var anscestor := CategoryOfId(paths[i].ancestorId, cats);
      var below := DescendantIs(anscestor, c, paths);
      if below {
        var above := Ancestors(anscestor, cats, paths);
        if |above| == 1 {
          root := anscestor;
        }
      }
    }
  }

  /**
   * RootOf returns the zero value when no scanned ancestor passes its test;
   * otherwise it returns the category looked up at the last path whose
   * ancestor passes, and that category is an ancestor of `c` with exactly one
   * ancestor of its own (the path list's self path, on a well-formed table).
   */
  lemma RootIsLastCandidate(c: Category, cats: seq<Category>, paths: seq<CategoryPath>)
    ensures (forall k :: 0 <= k < |paths| ==> !Passed(c, cats, paths)[k]) ==> RootIn(c, cats, paths) == Zero
    ensures (exists k :: 0 <= k < |paths| && Passed(c, cats, paths)[k]) ==>
              && (exists k :: LastFlaggedAt(Passed(c, cats, paths), |paths|, k) && RootIn(c, cats, paths) == ScannedAt(cats, paths, k))
              && IsAncestor(c, RootIn(c, cats, paths), paths)
              && |AncestorsIn(RootIn(c, cats, paths), cats, paths)| == 1
  {
    var flags, xs := Passed(c, cats, paths), Scanned(cats, paths);
    RootPrefixIsLastPassed(c, cats, paths, |paths|);
    if k0 :| 0 <= k0 < |paths| && flags[k0] {
      LastFlaggedHit(xs, flags, |paths|, k0);
      var r := RootIn(c, cats, paths);
      var k :| LastFlaggedAt(flags, |paths|, k) && r == xs[k];
      assert r == ScannedAt(cats, paths, k);
      assert RootCandidate(r, c, cats, paths);
    } else {
      LastFlaggedMiss(xs, flags, |paths|);
    }
  }

  // ---------------------------------------------------------------------------
  // The sample data set

  /** AllCategories: the same six categories as the ancestor-list sample. */
  const AllCategories: seq<Category> := [
    Category(1, "ファッション"),
    Category(2, "家具・インテリア"),
    Category(29, "レディース"),
    Category(30, "メンズ"),
    Category(38, "収納家具"),
    Category(200, "靴")
  ]

  /** paths: the closure of the sample tree, self paths included. */
  const Paths: seq<CategoryPath> := [
    CategoryPath(1, 1, 0),
    CategoryPath(1, 29, 1),
    CategoryPath(1, 30, 1),
    CategoryPath(1, 200, 2),
    CategoryPath(2, 2, 0),
    CategoryPath(2, 38, 1),
    CategoryPath(29, 29, 0),
    CategoryPath(29, 200, 1),
    CategoryPath(30, 30, 0),
    CategoryPath(38, 38, 0),
    CategoryPath(200, 200, 0)
  ]

  /** The ids of `s`, in order. */
  function Ids(s: seq<Category>): seq<int> {
    seq(|s|, i requires 0 <= i < |s| => s[i].id)
  }

  /** Every sample category is its own ancestor: the sample paths hold a self path for each. */
  lemma SampleSelfPaths()
    ensures forall i :: 0 <= i < |AllCategories| ==> IsAncestor(AllCategories[i], AllCategories[i], Paths)
  {
    var c, p := AllCategories, Paths;
    assert p[0].ancestorId == p[0].descendantId == c[0].id;
    assert p[4].ancestorId == p[4].descendantId == c[1].id;
    assert p[6].ancestorId == p[6].descendantId == c[2].id;
    assert p[8].ancestorId == p[8].descendantId == c[3].id;
    assert p[9].ancestorId == p[9].descendantId == c[4].id;
    assert p[10].ancestorId == p[10].descendantId == c[5].id;
    forall i | 0 <= i < |c| ensures IsAncestor(c[i], c[i], p) {
      assert i == 0 || i == 1 || i == 2 || i == 3 || i == 4 || i == 5;
    }
  }

  /** The ancestors of 200 come in path order: 1, 29, then 200 itself. */
  lemma SampleAncestorsOf200()
    ensures Ids(AncestorsIn(AllCategories[5], AllCategories, Paths)) == [1, 29, 200]
  {
    var c := AllCategories;
    SampleLookups();
    assert RelatedPrefix(Up, c[5], c, Paths, 3) == [];
    assert RelatedPrefix(Up, c[5], c, Paths, 4) == [c[0]];
    assert RelatedPrefix(Up, c[5], c, Paths, 7) == [c[0]];
    assert RelatedPrefix(Up, c[5], c, Paths, 8) == [c[0], c[2]];
    assert RelatedPrefix(Up, c[5], c, Paths, 10) == [c[0], c[2]];
    assert RelatedPrefix(Up, c[5], c, Paths, 11) == [c[0], c[2], c[5]];
    assert AncestorsIn(c[5], c, Paths) == RelatedPrefix(Up, c[5], c, Paths, 11);
  }

  /** The descendants of 1 come in path order: 1 itself, 29, 30, then 200. */
  lemma SampleDescendantsOf1()
    ensures Ids(DescendantsIn(AllCategories[0], AllCategories, Paths)) == [1, 29, 30, 200]
  {
    var c := AllCategories;
    SampleLookups();
    assert RelatedPrefix(Down, c[0], c, Paths, 1) == [c[0]];
    assert RelatedPrefix(Down, c[0], c, Paths, 2) == [c[0], c[2]];
    assert RelatedPrefix(Down, c[0], c, Paths, 3) == [c[0], c[2], c[3]];
    assert RelatedPrefix(Down, c[0], c, Paths, 4) == [c[0], c[2], c[3], c[5]];
    assert RelatedPrefix(Down, c[0], c, Paths, 8) == [c[0], c[2], c[3], c[5]];
    assert RelatedPrefix(Down, c[0], c, Paths, 11) == [c[0], c[2], c[3], c[5]];
    assert DescendantsIn(c[0], c, Paths) == RelatedPrefix(Down, c[0], c, Paths, 11);
  }

  /** The number of ancestors of each sample category: 1 for the roots 1 and 2, more for the others. */
  lemma SampleAncestorCounts()
    ensures |AncestorsIn(AllCategories[0], AllCategories, Paths)| == 1
    ensures |AncestorsIn(AllCategories[1], AllCategories, Paths)| == 1
    ensures |AncestorsIn(AllCategories[2], AllCategories, Paths)| == 2
    ensures |AncestorsIn(AllCategories[3], AllCategories, Paths)| == 2
    ensures |AncestorsIn(AllCategories[4], AllCategories, Paths)| == 2
    ensures |AncestorsIn(AllCategories[5], AllCategories, Paths)| == 3
  {
    var c := AllCategories;
    assert AncestorsIn(c[0], c, Paths) == RelatedPrefix(Up, c[0], c, Paths, 11);
    assert AncestorsIn(c[1], c, Paths) == RelatedPrefix(Up, c[1], c, Paths, 11);
    assert AncestorsIn(c[2], c, Paths) == RelatedPrefix(Up, c[2], c, Paths, 11);
    assert AncestorsIn(c[3], c, Paths) == RelatedPrefix(Up, c[3], c, Paths, 11);
    assert AncestorsIn(c[4], c, Paths) == RelatedPrefix(Up, c[4], c, Paths, 11);
    assert AncestorsIn(c[5], c, Paths) == RelatedPrefix(Up, c[5], c, Paths, 11);
  }

  /** Looking up each sample id gives the sample category with that id. */
  lemma SampleLookups()
    ensures Lookup(1, AllCategories) == AllCategories[0]
    ensures Lookup(2, AllCategories) == AllCategories[1]
    ensures Lookup(29, AllCategories) == AllCategories[2]
    ensures Lookup(30, AllCategories) == AllCategories[3]
    ensures Lookup(38, AllCategories) == AllCategories[4]
    ensures Lookup(200, AllCategories) == AllCategories[5]
  {
    var c := AllCategories;
    assert Lookup(1, c) == LookupPrefix(1, c, 6);
    assert Lookup(2, c) == LookupPrefix(2, c, 6);
    assert Lookup(29, c) == LookupPrefix(29, c, 6);
    assert Lookup(30, c) == LookupPrefix(30, c, 6);
    assert Lookup(38, c) == LookupPrefix(38, c, 6);
    assert Lookup(200, c) == LookupPrefix(200, c, 6);
  }

  /** The only sample paths starting at 2 end at 2 and 38. */
  lemma SamplePathsFrom2(t: Category)
    requires t.id != 2 && t.id != 38
    ensures !IsDescendant(AllCategories[1], t, Paths)
  {
    var p := Paths;
    forall k | 0 <= k < |p| ensures !(p[k].ancestorId == 2 && p[k].descendantId == t.id) {
      assert k == 0 || k == 1 || k == 2 || k == 3 || k == 4 || k == 5 || k == 6 || k == 7 || k == 8 || k == 9 || k == 10;
    }
  }

  /**
   * RootOf on every sample category: 2 for 2 and 38 (the debug output shows
   * RootOf(38)), 1 for the others, the root 1 included.
   */
  lemma SampleRootOf()
    ensures RootIn(AllCategories[0], AllCategories, Paths) == AllCategories[0]
    ensures RootIn(AllCategories[1], AllCategories, Paths) == AllCategories[1]
    ensures RootIn(AllCategories[2], AllCategories, Paths) == AllCategories[0]
    ensures RootIn(AllCategories[3], AllCategories, Paths) == AllCategories[0]
    ensures RootIn(AllCategories[4], AllCategories, Paths) == AllCategories[1]
    ensures RootIn(AllCategories[5], AllCategories, Paths) == AllCategories[0]
  {
    var c, p := AllCategories, Paths;
    SampleAncestorCounts();
    SampleLookups();
    assert IsDescendant(c[1], c[1], p) by { assert p[4].ancestorId == 2 && p[4].descendantId == 2; }
    assert IsDescendant(c[1], c[4], p) by { assert p[5].ancestorId == 2 && p[5].descendantId == 38; }
    assert IsDescendant(c[0], c[0], p) by { assert p[0].ancestorId == 1 && p[0].descendantId == 1; }
    assert IsDescendant(c[0], c[2], p) by { assert p[1].ancestorId == 1 && p[1].descendantId == 29; }
    assert IsDescendant(c[0], c[3], p) by { assert p[2].ancestorId == 1 && p[2].descendantId == 30; }
    assert IsDescendant(c[0], c[5], p) by { assert p[3].ancestorId == 1 && p[3].descendantId == 200; }
    SamplePathsFrom2(c[0]);
    SamplePathsFrom2(c[2]);
    SamplePathsFrom2(c[3]);
    SamplePathsFrom2(c[5]);
    assert RootIn(c[1], c, p) == RootPrefix(c[1], c, p, 11) == RootPrefix(c[1], c, p, 6) == c[1];
    assert RootIn(c[4], c, p) == RootPrefix(c[4], c, p, 11) == RootPrefix(c[4], c, p, 6) == c[1];
    assert RootIn(c[0], c, p) == RootPrefix(c[0], c, p, 11) == RootPrefix(c[0], c, p, 4) == c[0];
    assert RootIn(c[2], c, p) == RootPrefix(c[2], c, p, 11) == RootPrefix(c[2], c, p, 4) == c[0];
    assert RootIn(c[3], c, p) == RootPrefix(c[3], c, p, 11) == RootPrefix(c[3], c, p, 4) == c[0];
    assert RootIn(c[5], c, p) == RootPrefix(c[5], c, p, 11) == RootPrefix(c[5], c, p, 4) == c[0];
  }

  /** On the sample, RootOf is idempotent: the root of a root is that root. */
  lemma SampleRootOfIdempotent()
    ensures forall i :: 0 <= i < |AllCategories| ==>
              RootIn(RootIn(AllCategories[i], AllCategories, Paths), AllCategories, Paths) == RootIn(AllCategories[i], AllCategories, Paths)
  {
    var c, p := AllCategories, Paths;
    SampleRootOf();
    forall i | 0 <= i < |c| ensures RootIn(RootIn(c[i], c, p), c, p) == RootIn(c[i], c, p) {
      assert i == 0 || i == 1 || i == 2 || i == 3 || i == 4 || i == 5;
    }
  }
}
