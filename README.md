# ScriptSet: the script registry of the Scriptler plugin

This project models `ScriptSet`, the in-memory registry of `Script` records
used by the Jenkins Scriptler plugin. The registry keeps its scripts in a
`TreeSet`, so they are always sorted and never duplicated. It supports:

- lookup by id;
- removal by id;
- `addOrReplace`, an upsert that merges an incoming script into the one that
  already has its id;
- a read-only view of all scripts;
- two filtered views, by `repodir` and by the `nonAdministerUsing` flag;
- wholesale replacement of the container.

The model has three files:

- `script.dfy` (module `Scripts`) has the `Script` record and the order on ids
  (`LexLess`, the order of Java's `String.compareTo`). It also has the merge
  rule (`Merge`) and its laws.
- `sorted_set.dfy` (module `SortedScripts`) models the `TreeSet<Script>`. The
  set is the sequence of its elements in iteration order, and is well formed
  when it is strictly increasing by id (`SortedById`). `Lookup` is the linear
  scan. `Insert` is `TreeSet.add`, `Remove` is `TreeSet.remove` and `Select` is
  a filter. The lemmas cover sortedness, where inserted and removed elements
  go, and why a sorted container is fully determined by its members.
- `script_set.dfy` (module `ScriptSets`) has the class `ScriptSet`. Its field
  `scripts: seq<Script>` is reassigned by the methods that change the
  container. The upsert is stated once as the function `Upsert`, and the
  lemmas about the upsert are proved on that function.

Modelling decisions:

- **Ordering key.** `Script.compareTo` is not part of this model. The model
  takes it to compare ids with `String.compareTo`, so two scripts compare
  equal exactly when their ids are equal. Everything about the `TreeSet`
  depends on this. One case is `addOrReplace`, which removes the *incoming*
  script rather than the old one (ScriptSet.java:64). That removes the old
  record only because the two have the same id.
- **Class invariant.** `Valid()` says the container is strictly sorted by id,
  so ids are unique. The constructor establishes it and every mutating
  method keeps it. `setScripts` stores the caller's set without checking it,
  so `SetScripts` requires the new contents to be sorted by id. Supplying a
  well-formed set is the caller's duty.
- **`null`.** A `null` argument to `addOrReplace` is `None` of an `Option`. A
  `null` string is not modelled, so "empty" means `""`.
- **Removing an absent id.** `removeScript` then hands `null` to
  `TreeSet.remove`. A naturally ordered `TreeSet` throws
  `NullPointerException` there, before it changes anything. `RemoveScript`
  returns `ThrewNullPointerException` in that case and leaves the container
  unchanged. Such a removal is sometimes described as a silent no-op.
  The model follows the code. The state afterwards is the same
  either way; only the exception differs.

## Model

| member | source | states |
|---|---|---|
| `Scripts.LexLessTransitive` | src/main/java/org/jenkinsci/plugins/scriptler/config/ScriptSet.java:42-43 | the assumed id order of the sorted set is transitive |
| `Scripts.LexLessTotal` | src/main/java/org/jenkinsci/plugins/scriptler/config/ScriptSet.java:42-43 | the id order is total: two different ids are always ordered one way or the other |
| `Scripts.MergeFields` | src/main/java/org/jenkinsci/plugins/scriptler/config/ScriptSet.java:72-78 | name, comment, originCatalog, originScript and originDate are the incoming value when it is non-empty and the origin's otherwise; id, available, nonAdministerUsing, parameters, onlyMaster and repodir are always the incoming ones |
| `Scripts.MergeEmptyOnlyIfBothEmpty` | src/main/java/org/jenkinsci/plugins/scriptler/config/ScriptSet.java:73-77 | a merged text field is empty exactly when both sides were empty, so a merge never loses a filled-in text |
| `Scripts.MergeSelf` | src/main/java/org/jenkinsci/plugins/scriptler/config/ScriptSet.java:72-78 | merging a script into itself gives that script |
| `Scripts.MergeComplete` | src/main/java/org/jenkinsci/plugins/scriptler/config/ScriptSet.java:72-78 | an incoming script with all five text fields filled in replaces the origin wholesale |
| `Scripts.MergeReapply` | src/main/java/org/jenkinsci/plugins/scriptler/config/ScriptSet.java:72-78 | merging the same update twice is the same as merging it once |
| `Scripts.MergeAssociative` | src/main/java/org/jenkinsci/plugins/scriptler/config/ScriptSet.java:72-78 | applying updates b then c equals applying the single update "c merged into b" |
| `SortedScripts.SortedDistinct` | src/main/java/org/jenkinsci/plugins/scriptler/config/ScriptSet.java:42-43 | a container sorted by id holds no two records with the same id |
| `SortedScripts.Lookup` | src/main/java/org/jenkinsci/plugins/scriptler/config/ScriptSet.java:45-52 | a found record is in the container and has the queried id; nothing is found exactly when no record has that id |
| `SortedScripts.LookupAt` | src/main/java/org/jenkinsci/plugins/scriptler/config/ScriptSet.java:45-52 | in a sorted container the lookup of an id returns the one record carrying it |
| `SortedScripts.Insert` | src/main/java/org/jenkinsci/plugins/scriptler/config/ScriptSet.java:65-67 | TreeSet.add adds nothing but the given record |
| `SortedScripts.InsertSorted` | src/main/java/org/jenkinsci/plugins/scriptler/config/ScriptSet.java:65-67 | TreeSet.add keeps the container sorted by id |
| `SortedScripts.InsertAbsent` | src/main/java/org/jenkinsci/plugins/scriptler/config/ScriptSet.java:66-67 | adding a record with a new id adds exactly that record: the multiset grows by it and the size by one |
| `SortedScripts.InsertPresent` | src/main/java/org/jenkinsci/plugins/scriptler/config/ScriptSet.java:64-65 | TreeSet.add of a record whose id is present changes nothing, which is why the merge path removes first |
| `SortedScripts.InsertLast` | src/main/java/org/jenkinsci/plugins/scriptler/config/ScriptSet.java:97-101 | adding a record larger than every element appends it, as the in-order copy into a fresh TreeSet does |
| `SortedScripts.Remove` | src/main/java/org/jenkinsci/plugins/scriptler/config/ScriptSet.java:56 | TreeSet.remove leaves only records that were there |
| `SortedScripts.RemoveAt` | src/main/java/org/jenkinsci/plugins/scriptler/config/ScriptSet.java:54-57 | removing by a record whose id sits at index k deletes exactly index k and keeps everything else in order |
| `SortedScripts.RemoveAbsent` | src/main/java/org/jenkinsci/plugins/scriptler/config/ScriptSet.java:64 | removing by a record whose id is absent changes nothing |
| `SortedScripts.RemoveSorted` | src/main/java/org/jenkinsci/plugins/scriptler/config/ScriptSet.java:56 | TreeSet.remove keeps the container sorted by id |
| `SortedScripts.InsertReplaces` | src/main/java/org/jenkinsci/plugins/scriptler/config/ScriptSet.java:64-65 | removing the record of an id and adding a record with the same id puts the new record at the old index |
| `SortedScripts.Select` | src/main/java/org/jenkinsci/plugins/scriptler/config/ScriptSet.java:87-91 | a filter returns exactly the records that satisfy the predicate, and no more records than the container holds |
| `SortedScripts.SelectSorted` | src/main/java/org/jenkinsci/plugins/scriptler/config/ScriptSet.java:85-94 | a filter keeps the container order |
| `SortedScripts.SelectSnoc` | src/main/java/org/jenkinsci/plugins/scriptler/config/ScriptSet.java:98-102 | filtering a prefix grown by one record extends the result by that record exactly when it passes the filter |
| `SortedScripts.SortedUnique` | src/main/java/org/jenkinsci/plugins/scriptler/config/ScriptSet.java:42-43 | two containers sorted by id with the same members are equal, so iteration order is determined by the contents |
| `SortedScripts.InsertCommutes` | src/main/java/org/jenkinsci/plugins/scriptler/config/ScriptSet.java:67 | adding two records with new, distinct ids gives the same container in either order |
| `ScriptSets.UpsertExisting` | src/main/java/org/jenkinsci/plugins/scriptler/config/ScriptSet.java:61-65 | upserting a known id replaces that record in place by the merge; the size and all other records are unchanged |
| `ScriptSets.UpsertNew` | src/main/java/org/jenkinsci/plugins/scriptler/config/ScriptSet.java:66-67 | upserting an unknown id adds exactly the incoming record and grows the size by one |
| `ScriptSets.UpsertSorted` | src/main/java/org/jenkinsci/plugins/scriptler/config/ScriptSet.java:59-70 | every upsert, including the null one, keeps the container sorted and its ids unique |
| `ScriptSets.UpsertThenLookup` | src/main/java/org/jenkinsci/plugins/scriptler/config/ScriptSet.java:59-70 | after an upsert the lookup of its id returns the merged record if the id was known and the incoming record otherwise |
| `ScriptSets.UpsertOrderIrrelevant` | src/main/java/org/jenkinsci/plugins/scriptler/config/ScriptSet.java:59-70 | upserting two scripts with new, distinct ids yields the same container in either order |
| `ScriptSets.ScriptSet.constructor` | src/main/java/org/jenkinsci/plugins/scriptler/config/ScriptSet.java:43 | a new registry is empty and valid |
| `ScriptSets.ScriptSet.GetScriptById` | src/main/java/org/jenkinsci/plugins/scriptler/config/ScriptSet.java:45-52 | the scan returns the first record with the id, which is in the registry and has that id; it returns None exactly when no record has that id |
| `ScriptSets.ScriptSet.RemoveScript` | src/main/java/org/jenkinsci/plugins/scriptler/config/ScriptSet.java:54-57 | for a present id exactly that record is deleted and the others stay in order; for an absent id NullPointerException is thrown and the registry is unchanged |
| `ScriptSets.ScriptSet.AddOrReplace` | src/main/java/org/jenkinsci/plugins/scriptler/config/ScriptSet.java:59-70 | the new contents are the upsert of the old ones: null changes nothing, a new id adds exactly the script, a known id's record is replaced in place by the merge; validity is kept |
| `ScriptSets.ScriptSet.GetScripts` | src/main/java/org/jenkinsci/plugins/scriptler/config/ScriptSet.java:81-83 | the view is the whole container, in order, and in a valid registry no two of its records share an id |
| `ScriptSets.ScriptSet.GetScriptsForRepodir` | src/main/java/org/jenkinsci/plugins/scriptler/config/ScriptSet.java:85-94 | the result holds exactly the records whose repodir equals the argument, in container order |
| `ScriptSets.ScriptSet.GetUserScripts` | src/main/java/org/jenkinsci/plugins/scriptler/config/ScriptSet.java:96-104 | the result holds exactly the records flagged nonAdministerUsing, sorted by id |
| `ScriptSets.ScriptSet.SetScripts` | src/main/java/org/jenkinsci/plugins/scriptler/config/ScriptSet.java:106-108 | the container becomes exactly the given contents |

The methods `ScenarioInsert`, `ScenarioFilters`, `ScenarioRemove` and
`ScenarioMerge` are clients of the class. They show what a caller can
conclude from the contracts alone: insertion in either order, both filters,
a second removal of the same id, and a re-import that keeps local text
fields.

## Left out

- The `Script` class is not part of this model. Its constructor, `compareTo`, `equals` and `hashCode` are left out. The order is the documented id order above, and `parameters` is a sequence the registry never inspects.
- Java collection views are left out. `getScripts` returns `Collections.unmodifiableSet` and `getScriptsForRepodir` returns a live `Collections2.filter` view. Both are modelled as sequences taken at the time of the call, so later changes to the registry do not show through them.
- `setScripts` stores the caller's set by reference. The model copies the contents, so aliasing between the registry and the caller is not captured.
- `ScriptSets.ScriptSet.SetScripts` requires its argument to be sorted by id and free of duplicate ids. The source accepts any set, so a registry holding duplicate ids is not modelled.
- `ScriptSets.ScriptSet.GetUserScripts` requires a valid registry. For a registry with duplicate ids, the fresh TreeSet would silently drop records, and that case is not modelled.
- `null` strings are left out. `StringUtils.isEmpty` treats `null` as empty, and the model represents both as `""`.
- Java `String.compareTo` compares UTF-16 code units, while `LexLess` compares Unicode scalar values. The two orders differ only on ids that mix supplementary characters with characters from U+E000 to U+FFFF.
- Thread safety, persistence, the UI and script execution are not in the modelled file.
