# Category trees, two ways

This project models a small Go program that stores a category tree (the
categories of a shop: fashion, furniture, women's, men's, storage, shoes) in
two encodings and answers the same questions over each: who are a category's
ancestors, who are its descendants, is one category an ancestor or descendant
of another, and what is its root.

- **Ancestor list** (`array_of_anscestors/main.go`, module `AncestorList`,
  file `ancestor_list.dfy`). Each category record carries the ids of its
  ancestors, root first. `Ancestors` is the category followed by the looked-up
  ancestor ids; `Descendants` is the category followed by every record whose
  ancestor ids contain its id; `RootOf` picks the last record without
  ancestors whose id the category lists.
- **Closure table** (`closure_table/main.go`, module `ClosureTable`, file
  `closure_table.dfy`). Categories carry only an id and a name; the tree is a
  list of paths (ancestor id, descendant id, path length), self paths
  included. `Ancestors` and `Descendants` filter the paths and look the other
  end up; `AnscestorIs` and `DescendantIs` ask whether a path exists;
  `RootOf` scans the paths for an ancestor of the category with exactly one
  ancestor of its own.
- **Agreement** (module `Agreement`, file `agreement.dfy`) states when a
  path list is the closure table of an ancestor-list data set (`Encodes`).
  The lemmas carry the conditions they need:
  - For a category that is a record of the data, `DescendantIs` and the ids
    of `Descendants` agree.
  - If the ids are also unique, the ids of `Ancestors` agree as well. Both
    programs look a dangling ancestor id up to the zero value, so it gives
    id 0 on both sides.
  - `AnscestorIs` agrees when, in addition, the record's ancestor ids all
    resolve. The ancestor-list version compares the ids of looked-up records,
    so a dangling id matches a target with id 0. The closure-table version
    reads the paths alone and does not.
  - On a well-formed data set (unique ids, no dangling ids, closed ancestor
    lists), the closure-table `AnscestorIs` is transitive between records
    (`Agreement.ClosureAncestorIsTransitive`).

  The sample data of the two programs is such a pair, and all the
  conditions hold for it. The orders of the lists differ: for 200,
  `AncestorList.SampleAncestorsOf200` gives the ids [200, 1, 29] and
  `ClosureTable.SampleAncestorsOf200` gives [1, 29, 200].

Every query of the Go code is a `for … range` loop over a slice that it
never changes. Each becomes a Dafny `method` with that loop (the same
branches, the same early `return`s, the same calls to `CategoryOfId` and
`contains`). Each method is proved equal to a specification function over
`seq`, and the properties are lemmas about those functions. The Go zero
value of `Category` is the constant `Zero`: the code does not break out of
its lookup loop, so the last record with a matching id wins, and a miss gives
`Zero`. The model keeps both behaviours, as the Go code does; it does not
replace them with an optional result.

Two behaviours of the code are kept as written:
- Unlike the closure-table RootOf (closure_table/main.go:94-103), the
  ancestor-list RootOf gives the zero value for a root
  (array_of_anscestors/main.go:128-136). So it is not idempotent (see
  "## Findings").
- Neither program reports a dangling ancestor id or an ambiguous root. The
  lookup gives the zero value and the last match wins.

## Model

| member | source | states |
|---|---|---|
| AncestorList.LookupPrefixMiss | array_of_anscestors/main.go:27-35 | when none of the first n records has the id, the lookup over them gives the zero Category |
| AncestorList.LookupPrefixHit | array_of_anscestors/main.go:27-35 | when one of the first n records has the id, the lookup over them gives the last record that has it |
| AncestorList.LookupIsLastMatch | array_of_anscestors/main.go:27-35 | CategoryOfId returns the last record with the id, or the zero Category when no record has it |
| AncestorList.CategoryOfId | array_of_anscestors/main.go:27-35 | the overwrite-on-match loop returns exactly the last-match lookup |
| AncestorList.ResolvePrefix | array_of_anscestors/main.go:43-46 | resolving the first n ancestor ids gives n records, the i-th being the lookup of the i-th id |
| AncestorList.AncestorChainShape | array_of_anscestors/main.go:41-48 | Ancestors has length 1 + number of ancestor ids; element 0 is the category and element i+1 is the lookup of ancestor id i |
| AncestorList.Ancestors | array_of_anscestors/main.go:41-48 | the append loop builds exactly that ancestor chain |
| AncestorList.AnscestorIs | array_of_anscestors/main.go:51-59 | the early-return scan answers whether some element of the ancestor chain has the target's id |
| AncestorList.AnscestorsOf | array_of_anscestors/main.go:139-141 | the wrapper returns the ancestor chain |
| AncestorList.Contains | array_of_anscestors/main.go:75-82 | contains is true exactly when the element occurs in the list |
| AncestorList.BelowPrefix | array_of_anscestors/main.go:96-100 | the records selected among the first n number at most n |
| AncestorList.BelowPrefixMembers | array_of_anscestors/main.go:96-100 | a record is selected among the first n exactly when it is one of them and its ancestor ids contain the category's id |
| AncestorList.DescendantListShape | array_of_anscestors/main.go:84-102 | Descendants starts with the category, has at most 1 + len(data) elements, and the rest are exactly the records listing the category's id |
| AncestorList.Descendants | array_of_anscestors/main.go:84-102 | the loop calling contains builds exactly that descendant list |
| AncestorList.DescendantIs | array_of_anscestors/main.go:105-113 | the early-return scan answers whether some element of the descendant list has the target's id |
| AncestorList.DescendantsOf | array_of_anscestors/main.go:144-146 | the wrapper returns the descendant list |
| AncestorList.RootPrefixMiss | array_of_anscestors/main.go:128-136 | when none of the first n records is a candidate (no ancestor ids, id listed by the category), RootOf's scan over them gives the zero value |
| AncestorList.RootPrefixHit | array_of_anscestors/main.go:128-136 | when some of the first n records is a candidate, RootOf's scan over them gives the last candidate |
| AncestorList.RootIsLastCandidate | array_of_anscestors/main.go:128-136 | RootOf returns the last record with no ancestor ids whose id the category lists, else the zero value; either way the answer has no ancestor ids |
| AncestorList.RootOf | array_of_anscestors/main.go:128-136 | the loop, testing emptiness before calling contains, returns exactly that root |
| AncestorList.LookupResolved | array_of_anscestors/main.go:27-35 | the lookup of an id that some record has is a record of the data with that id |
| AncestorList.LookupUnique | array_of_anscestors/main.go:27-35 | with unique ids, looking up a record's id gives that record back |
| AncestorList.AncestorIsReflexive | array_of_anscestors/main_test.go:13 | AnscestorIs(c, c) holds for every data set |
| AncestorList.AncestorIsIff | array_of_anscestors/main.go:51-59 | when every ancestor id resolves, AnscestorIs(c, t) holds exactly when t's id is c's id or one of c's ancestor ids |
| AncestorList.DanglingAncestorMatchesZeroId | array_of_anscestors/main.go:28-34 | a dangling ancestor id is looked up to the zero value, so any target with id 0 counts as an ancestor |
| AncestorList.DescendantIsIff | array_of_anscestors/main.go:105-113 | DescendantIs(c, t) holds exactly when t has c's id or some record with t's id lists c's id |
| AncestorList.DescendantIsReflexive | array_of_anscestors/main.go:105-113 | DescendantIs(c, c) holds for every data set |
| AncestorList.BelowPrefixAgree | array_of_anscestors/main.go:96-100 | two data sets agreeing on their first n records select the same records among them |
| AncestorList.BelowPrefixAppend | array_of_anscestors/main.go:96-100 | selecting over a concatenation scans the first part completely, then the second |
| AncestorList.BelowAppend | array_of_anscestors/main.go:96-100 | the descendants found keep data order: over a + b they are those of a followed by those of b |
| AncestorList.RootHasNoProperAncestor | array_of_anscestors/main.go:128-136 | RootOf's answer has no ancestor ids, so its Ancestors is the one-element list of itself |
| AncestorList.RootIsAncestor | array_of_anscestors/main.go:128-136 | when a candidate exists, RootOf's answer is a record of the data, passes the test, and is an ancestor of the category |
| AncestorList.RootOfRootIsZero | array_of_anscestors/main.go:128-136 | a category with no ancestor ids gets the zero value from RootOf, not itself |
| AncestorList.RootOfTwiceIsZero | array_of_anscestors/main.go:128-136 | RootOf applied twice always gives the zero value, so it is not idempotent |
| AncestorList.RootOrSelfIsIdempotent | array_of_anscestors/main.go:128-136 | the corrected root query (a root answers itself) is idempotent and its answer's Ancestors is just itself |
| AncestorList.AncestorDescendantDuality | array_of_anscestors/main.go:51-113 | with unique ids, for a record whose ancestor ids resolve, b is its ancestor exactly when it is b's descendant |
| AncestorList.AncestorIsTransitive | array_of_anscestors/main.go:51-59 | on a well-formed data set (unique ids, no dangling ids, closed ancestor lists) AnscestorIs is transitive |
| AncestorList.SampleResolves | array_of_anscestors/main.go:116-125 | every ancestor id of the sample resolves |
| AncestorList.SampleWellFormed | array_of_anscestors/main.go:116-125 | the sample has unique ids, no dangling ids, and closed ancestor lists |
| AncestorList.SampleAnscestorIs | array_of_anscestors/main_test.go:13-16 | the four TestAnscestorIs cases: 1/1, 30/1 and 200/1 hold, 2/1 does not |
| AncestorList.SampleAncestorsOf200 | array_of_anscestors/main.go:116-125 | the ancestors of 200 have ids [200, 1, 29] |
| AncestorList.SampleDescendantsOf1 | array_of_anscestors/main_test.go:43 | the descendants of 1 have ids [1, 29, 30, 200] |
| AncestorList.SampleDescendantsOf2And29 | array_of_anscestors/main_test.go:44-45 | the descendants of 2 have ids [2, 38] and those of 29 have [29, 200] |
| AncestorList.SampleRootOf | array_of_anscestors/main.go:155 | RootOf(200), RootOf(29) and RootOf(30) are 1, RootOf(38) is 2, RootOf(1) is the zero value |
| ClosureTable.LookupPrefixMiss | closure_table/main.go:21-29 | when none of the first n categories has the id, the lookup over them gives the zero Category |
| ClosureTable.LookupPrefixHit | closure_table/main.go:21-29 | when one of the first n categories has the id, the lookup over them gives the last one that has it |
| ClosureTable.LookupIsLastMatch | closure_table/main.go:21-29 | CategoryOfId returns the last category with the id, or the zero Category |
| ClosureTable.LookupResolved | closure_table/main.go:21-29 | the lookup of an id that some category has is a category with that id |
| ClosureTable.CategoryOfId | closure_table/main.go:21-29 | the overwrite-on-match loop returns exactly the last-match lookup |
| ClosureTable.RelatedPrefix | closure_table/main.go:31-39 | scanning the first n paths yields at most n categories |
| ClosureTable.Ancestors | closure_table/main.go:31-39 | the append loop builds exactly the looked-up ancestor ends of the paths ending at the category, in path order |
| ClosureTable.Descendants | closure_table/main.go:61-69 | the append loop builds exactly the looked-up descendant ends of the paths starting at the category, in path order |
| ClosureTable.AnscestorsOf | closure_table/main.go:106-108 | the wrapper returns Ancestors' answer |
| ClosureTable.DescendantsOf | closure_table/main.go:111-113 | the wrapper returns Descendants' answer |
| ClosureTable.RelatedPrefixCount | closure_table/main.go:31-39 | the scan of the first n paths has one entry per selected path |
| ClosureTable.RelatedPrefixMembers | closure_table/main.go:61-69 | a category is in the scan exactly when it is the lookup of the far end of some selected path |
| ClosureTable.RelatedPrefixAgree | closure_table/main.go:31-39 | path lists agreeing on their first n paths give the same scan |
| ClosureTable.RelatedPrefixAppend | closure_table/main.go:31-39 | scanning a concatenation is scanning the first part, then the second |
| ClosureTable.AncestorsAreLookedUpPaths | closure_table/main.go:31-39 | Ancestors has exactly as many entries as there are paths ending at the category, and its members are the lookups of those paths' ancestor ends |
| ClosureTable.DescendantsAreLookedUpPaths | closure_table/main.go:61-69 | Descendants has exactly as many entries as paths starting at the category, and its members are the lookups of their descendant ends |
| ClosureTable.AncestorsKeepPathOrder | closure_table/main.go:31-39 | Ancestors over a + b is Ancestors over a followed by Ancestors over b |
| ClosureTable.DescendantsKeepPathOrder | closure_table/main.go:61-69 | Descendants over a + b is Descendants over a followed by Descendants over b |
| ClosureTable.AnscestorIs | closure_table/main.go:42-49 | the scan, which reads only the paths, answers whether some path runs from the target to the category |
| ClosureTable.DescendantIs | closure_table/main.go:72-79 | the scan answers whether some path runs from the category to the target |
| ClosureTable.AncestorDescendantDuality | closure_table/main.go:42-79 | for all categories and path lists, AnscestorIs(a, b) equals DescendantIs(b, a) |
| ClosureTable.AncestorIsReflexiveIff | closure_table/main.go:42-49 | AnscestorIs(c, c) holds exactly when the path list has a path from c to itself |
| ClosureTable.LastFlaggedMiss | closure_table/main.go:95-101 | a scan that keeps the element at each flagged position gives the zero value when nothing is flagged |
| ClosureTable.LastFlaggedHit | closure_table/main.go:95-101 | that scan gives the element at the last flagged position when something is flagged |
| ClosureTable.RootPrefixIsLastPassed | closure_table/main.go:95-101 | RootOf's scan over the first n paths is that selection over the looked-up ancestors and their test outcomes |
| ClosureTable.RootOf | closure_table/main.go:94-103 | the loop (lookup, then DescendantIs, then the length of Ancestors) returns exactly RootOf's scan |
| ClosureTable.RootIsLastCandidate | closure_table/main.go:94-103 | RootOf gives the zero value when no looked-up ancestor passes; otherwise the one looked up at the last path that passes, an ancestor of the category with exactly one ancestor itself |
| ClosureTable.SampleSelfPaths | closure_table/main.go:117-129 | the sample paths hold a self path for every sample category, so each is its own ancestor |
| ClosureTable.SampleAncestorsOf200 | closure_table/main.go:135 | the ancestors of 200 have ids [1, 29, 200] |
| ClosureTable.SampleDescendantsOf1 | closure_table/main.go:136 | the descendants of 1 have ids [1, 29, 30, 200] |
| ClosureTable.SampleAncestorCounts | closure_table/main.go:117-129 | the sample categories have 1, 1, 2, 2, 2 and 3 ancestors |
| ClosureTable.SampleLookups | closure_table/main.go:82-91 | looking up each sample id gives the sample category with that id |
| ClosureTable.SamplePathsFrom2 | closure_table/main.go:117-129 | the only sample paths from 2 end at 2 and 38 |
| ClosureTable.SampleRootOf | closure_table/main.go:137 | RootOf is 2 for 2 and 38 and 1 for every other sample category, the root 1 included |
| ClosureTable.SampleRootOfIdempotent | closure_table/main.go:94-103 | on the sample, RootOf of the root of any category is that root again |
| Agreement.CatsResolve | closure_table/main.go:5-8 | an id resolves among ancestor-list records exactly when it resolves among the matching closure-table categories |
| Agreement.PathsToRecord | closure_table/main.go:117-129 | on a closure table of unique-id data, the paths to a record start exactly at its id and its ancestor ids |
| Agreement.PathsFromRecord | closure_table/main.go:117-129 | on a closure table, the paths from a record end exactly at its id and at the records listing it |
| Agreement.AnscestorIsAgrees | closure_table/main.go:42-49 | on a closure table of unique-id data, both AnscestorIs agree for a record whose ancestor ids resolve |
| Agreement.ClosureAncestorIsTransitive | closure_table/main.go:42-49 | on a closure table of a well-formed ancestor-list data set, the closure-table AnscestorIs is transitive between records |
| Agreement.DescendantIsAgrees | closure_table/main.go:72-79 | on a closure table, both DescendantIs agree for every record |
| Agreement.AncestorIdsOfPaths | closure_table/main.go:31-39 | the ids in Ancestors are exactly the ancestor ends of the paths to the category, when those ends resolve |
| Agreement.DescendantIdsOfPaths | closure_table/main.go:61-69 | the ids in Descendants are exactly the descendant ends of the paths from the category, when those ends resolve |
| Agreement.LookupPrefixStrip | closure_table/main.go:21-29 | the closure-table CategoryOfId over the projected categories gives the projection of the ancestor-list CategoryOfId, the zero value included |
| Agreement.AncestorIdsAgree | closure_table/main.go:31-39 | on a closure table of unique-id data, both Ancestors give the same id set for every record, dangling ancestor ids included (both give id 0) |
| Agreement.DescendantIdsAgree | closure_table/main.go:61-69 | on a closure table, both Descendants give the same id set for every record |
| Agreement.SampleSound | closure_table/main.go:117-129 | every sample path runs from a sample record, or an ancestor id it lists, down to that record |
| Agreement.SampleComplete | closure_table/main.go:117-129 | every sample record has its self path and a path from each ancestor id it lists |
| Agreement.SampleEncodes | closure_table/main.go:82-129 | the closure-table sample has the ancestor-list sample's categories and is its closure table; the ids are unique |
| Agreement.SampleIdSetsAgree | closure_table/main.go:31-69 | for every sample category, both encodings give the same ancestor id set and the same descendant id set |
| Agreement.SampleRootsAgree | closure_table/main.go:94-103 | with roots answering themselves, the ancestor-list root query agrees with the closure-table RootOf on every sample category |

## Left out

- `main` and its `fmt.Println` debug output (array_of_anscestors/main.go:151-156, closure_table/main.go:132-138) are I/O. The values they print are proved as sample lemmas instead.
- The `Name()` getters are trivial accessors and are not modelled. Names are kept as fields but play no part in any query.
- The commented-out `Parent`, `IsRoot`, `Children` and naive-tree descendant code is dead. `ParentID` is kept as a field, but no live code reads it.
- The benchmarks and the complexity comments are about timing only.
- `TestDescendantsOf` (array_of_anscestors/main_test.go:48-56) is not a specification. Its comparison is inverted, and it compares `[]Category` with `[]*Category`, so it can never fail. Only its expected id lists are used, in `AncestorList.SampleDescendantsOf1` and `AncestorList.SampleDescendantsOf2And29`.
- The `contains` of closure_table/main.go:52-59 is never called and is not modelled.
- Explicit not-found or ambiguous-root errors do not exist in the code. The model keeps the zero value and last-match-wins.
- Go's fixed-width `int` is modelled as an unbounded `int`. No query does arithmetic, so nothing can wrap around.
- The methods take the slices as immutable `seq`s. Some Go receivers are passed by address, but nothing is mutated, so aliasing plays no part. The model takes categories as values, so the nil `*Category` on which `AnscestorIs` (array_of_anscestors/main.go:51-52) and `DescendantsOf` (array_of_anscestors/main.go:144-145) would panic in Go cannot arise.
- Agreement.SampleRootsAgree: the two root queries are compared on the sample only. A general theorem would need an extra condition on the data, that each category lists exactly one root and the paths hold no duplicate self paths, and it is not stated.
- ClosureTable.SampleRootOfIdempotent: idempotence of the closure-table RootOf is stated on the sample only. In general the one path into a candidate root need not be its self path, and a root that does not resolve is looked up to the zero value, so a general theorem would need conditions on the paths, and it is not stated.
- AncestorList.AncestorDescendantDuality: it is stated for a record of the data whose ancestor ids resolve, not for all pairs. Without unique ids, or with a dangling id, the two queries can disagree (the dangling quirk in `AncestorList.DanglingAncestorMatchesZeroId`).

## Findings

| source | as written | input that shows it | evidently intended | confidence | as-written member | corrected member |
|---|---|---|---|---|---|---|
| array_of_anscestors/main.go:128-136 | `root` stays the zero value when the category has no ancestor ids, so a root gets the zero Category and RootOf(RootOf(c)) is always the zero value | RootOf(category 1, AllCategories()) gives the zero value, while the closure-table RootOf of the same tree gives category 1 | a root is its own root, as in closure_table/main.go:94-103, and RootOf is idempotent | medium, not executed; proved in the model | AncestorList.RootOfTwiceIsZero | AncestorList.RootOrSelfIsIdempotent |
