/** The registry of scripts: the ScriptSet class, with the upsert rule stated
    once as a function on container contents and proved about. */
module ScriptSets {
  import opened Scripts
  import opened SortedScripts

  /** How removeScript ends: normally, or with the NullPointerException that
      TreeSet.remove raises when it is handed null (the id was not found). */
  datatype Outcome = Completed | ThrewNullPointerException

  /** The container after addOrReplace(incoming): null changes nothing; a new
      id is added; a known id is merged into its record, which the merged
      record replaces. The old record is removed by way of the incoming one,
      which finds it because both have the same id. */
  function Upsert(s: seq<Script>, incoming: Option<Script>): seq<Script> {
    match incoming
    case None => s
    case Some(n) =>
      match Lookup(s, n.id)
      case Some(o) => Insert(Remove(s, n), Merge(o, n))
      case None => Insert(s, n)
  }

  predicate IsUserScript(x: Script) {
    x.nonAdministerUsing
  }

  /** Upserting a known id replaces its record in place by the merge and
      leaves every other record, and the size, as it was. */
  lemma UpsertExisting(s: seq<Script>, n: Script, k: int)
    requires SortedById(s) && 0 <= k < |s| && s[k].id == n.id
    ensures Upsert(s, Some(n)) == s[k := Merge(s[k], n)]
  {
    LookupAt(s, k);
    RemoveAt(s, n, k);
    InsertReplaces(s, Merge(s[k], n), k);
  }

  /** Upserting a new id adds exactly the incoming record. */
  lemma UpsertNew(s: seq<Script>, n: Script)
    requires forall x :: x in s ==> x.id != n.id
    ensures |Upsert(s, Some(n))| == |s| + 1
    ensures multiset(Upsert(s, Some(n))) == multiset(s) + multiset{n}
  {
    InsertAbsent(s, n);
  }

  /** Upsert keeps the container sorted, hence free of duplicate ids. */
  lemma UpsertSorted(s: seq<Script>, incoming: Option<Script>)
    requires SortedById(s)
    ensures SortedById(Upsert(s, incoming))
  {
    if incoming.Some? {
      var n := incoming.value;
      if k :| 0 <= k < |s| && s[k].id == n.id {
        UpsertExisting(s, n, k);
        var r := s[k := Merge(s[k], n)];
        assert forall i :: 0 <= i < |s| ==> r[i].id == s[i].id;
      } else {
        InsertSorted(s, n);
      }
    }
  }

  /** After an upsert, looking up the id finds the merged record if the id
      was known and the incoming record itself if it was not. */
  lemma UpsertThenLookup(s: seq<Script>, n: Script)
    requires SortedById(s)
    ensures Lookup(Upsert(s, Some(n)), n.id)
      == Some(match Lookup(s, n.id) case Some(o) => Merge(o, n) case None => n)
  {
    var r := Upsert(s, Some(n));
    UpsertSorted(s, Some(n));
    if k :| 0 <= k < |s| && s[k].id == n.id {
      LookupAt(s, k);
      UpsertExisting(s, n, k);
      LookupAt(r, k);
    } else {
      UpsertNew(s, n);
      assert n in multiset(r);
      var k :| 0 <= k < |r| && r[k] == n;
      LookupAt(r, k);
    }
  }

  /** Upserting records with new, distinct ids gives the same container in
      either order. */
  lemma UpsertOrderIrrelevant(s: seq<Script>, x: Script, y: Script)
    requires SortedById(s) && x.id != y.id
    requires forall z :: z in s ==> z.id != x.id && z.id != y.id
    ensures Upsert(Upsert(s, Some(x)), Some(y)) == Upsert(Upsert(s, Some(y)), Some(x))
  {
    InsertAbsent(s, x);
    InsertAbsent(s, y);
    assert forall z :: z in Insert(s, x) ==> z in multiset(Insert(s, x));
    assert forall z :: z in Insert(s, y) ==> z in multiset(Insert(s, y));
    assert Lookup(Insert(s, x), y.id).None?;
    assert Lookup(Insert(s, y), x.id).None?;
    InsertCommutes(s, x, y);
  }

  /** An in-memory registry of scripts, kept sorted by id. */
  class ScriptSet {
    /** The contents of the TreeSet, in iteration order. */
    var scripts: seq<Script>

    /** The container is ordered by id, so each id occurs at most once. */
    ghost predicate Valid()
      reads this
    {
      SortedById(scripts)
    }

    constructor ()
      ensures Valid() && scripts == []
    {
      scripts := [];
    }

    /** getScriptById: scans in order and returns the first record with the id. */
    method GetScriptById(id: string) returns (r: Option<Script>)
      ensures r == Lookup(scripts, id)
      ensures r.Some? ==> r.value in scripts && r.value.id == id
      ensures r.None? <==> forall x :: x in scripts ==> x.id != id
    {
      var i := 0;
      while i < |scripts|
        invariant 0 <= i <= |scripts|
        invariant Lookup(scripts[i..], id) == Lookup(scripts, id)
      {
        if scripts[i].id == id {
          return Some(scripts[i]);
        }
        assert scripts[i..][1..] == scripts[i + 1..];
        i := i + 1;
      }
      return None;
    }

    /** removeScript: looks the id up and removes what it found. When nothing
        is found, null reaches TreeSet.remove, which throws before changing
        the container. */
    method RemoveScript(id: string) returns (outcome: Outcome)
      requires Valid()
      modifies this
      ensures Valid()
      ensures outcome == ThrewNullPointerException <==> forall x :: x in old(scripts) ==> x.id != id
      ensures outcome == ThrewNullPointerException ==> scripts == old(scripts)
      ensures outcome == Completed ==>
        exists k :: 0 <= k < |old(scripts)| && old(scripts)[k].id == id
          && scripts == old(scripts)[..k] + old(scripts)[k + 1..]
    {
      var s := GetScriptById(id);
      if s.None? {
        outcome := ThrewNullPointerException;
      } else {
        ghost var k :| 0 <= k < |scripts| && scripts[k] == s.value;
        RemoveAt(scripts, s.value, k);
        RemoveSorted(scripts, s.value);
        scripts := Remove(scripts, s.value);
        outcome := Completed;
      }
    }

    /** addOrReplace: ignores null, adds a script with a new id, and replaces
        the record of a known id by the merge of the two. */
    method AddOrReplace(script: Option<Script>)
      requires Valid()
      modifies this
      ensures Valid()
      ensures scripts == Upsert(old(scripts), script)
      ensures script.None? ==> scripts == old(scripts)
      ensures script.Some? && (forall x :: x in old(scripts) ==> x.id != script.value.id) ==>
        |scripts| == |old(scripts)| + 1
        && multiset(scripts) == multiset(old(scripts)) + multiset{script.value}
      ensures forall k :: 0 <= k < |old(scripts)| && script.Some? && old(scripts)[k].id == script.value.id ==>
        scripts == old(scripts)[k := Merge(old(scripts)[k], script.value)]
    {
      ghost var s0 := scripts;
      UpsertSorted(s0, script);
      if script.Some? {
        var n := script.value;
        forall k | 0 <= k < |s0| && s0[k].id == n.id
          ensures Upsert(s0, script) == s0[k := Merge(s0[k], n)]
        {
          UpsertExisting(s0, n, k);
        }
        if forall x :: x in s0 ==> x.id != n.id {
          UpsertNew(s0, n);
        }
        var oldScript := GetScriptById(n.id);
        if oldScript.Some? {
          var merged := Merge(oldScript.value, n);
          scripts := Remove(scripts, n);
          scripts := Insert(scripts, merged);
        } else {
          scripts := Insert(scripts, n);
        }
      }
    }

    /** getScripts: the whole container, in order, without duplicate ids. */
    function GetScripts(): (r: seq<Script>)
      reads this
      ensures r == scripts
      ensures Valid() ==> forall i, j :: 0 <= i < j < |r| ==> r[i].id != r[j].id
    {
      assert Valid() ==> forall i, j :: 0 <= i < j < |scripts| ==> scripts[i].id != scripts[j].id by {
        if Valid() {
          SortedDistinct(scripts);
        }
      }
      scripts
    }

    /** getScriptsForRepodir: exactly the records of the given repodir, in
        container order. */
    function GetScriptsForRepodir(repodir: string): (r: seq<Script>)
      reads this
      ensures forall x :: x in r <==> x in scripts && x.repodir == repodir
      ensures Valid() ==> SortedById(r)
    {
      var inRepodir := (x: Script) => x.repodir == repodir;
      assert Valid() ==> SortedById(Select(scripts, inRepodir)) by {
        if Valid() {
          SelectSorted(scripts, inRepodir);
        }
      }
      Select(scripts, inRepodir)
    }

    /** getUserScripts: copies the records usable by non-administrators into a
        fresh sorted set, one at a time in container order. */
    method GetUserScripts() returns (r: seq<Script>)
      requires Valid()
      ensures forall x :: x in r <==> x in scripts && x.nonAdministerUsing
      ensures SortedById(r)
    {
      r := [];
      for i := 0 to |scripts|
        invariant r == Select(scripts[..i], IsUserScript)
      {
        SelectSnoc(scripts[..i], scripts[i], IsUserScript);
        assert scripts[..i + 1] == scripts[..i] + [scripts[i]];
        if scripts[i].nonAdministerUsing {
          forall y | y in r ensures LexLess(y.id, scripts[i].id) {
            var j :| 0 <= j < i && scripts[j] == y;
          }
          InsertLast(r, scripts[i]);
          r := Insert(r, scripts[i]);
        }
      }
      assert scripts[..|scripts|] == scripts;
      SelectSorted(scripts, IsUserScript);
    }

    /** setScripts: replaces the whole container. The caller hands over a
        container that is already sorted and free of duplicate ids. */
    method SetScripts(s: seq<Script>)
      requires SortedById(s)
      modifies this
      ensures Valid() && scripts == s
    {
      scripts := s;
    }
  }

  /** Two scripts inserted one after the other end up in id order. */
  method ScenarioInsert() {
    var registry := new ScriptSet();
    var s1 := Script("s1", "", "", false, "", "", "", true, [], false, "r1");
    var s2 := Script("s2", "", "", false, "", "", "", false, [], false, "r2");
    registry.AddOrReplace(Some(s2));
    assert registry.scripts == [s2];
    registry.AddOrReplace(Some(s1));
    assert LexLess("s1", "s2") by {
      assert "s2"[1..] == "2" && "s1"[1..] == "1";
    }
    assert registry.scripts == [s1, s2];
  }

  /** Both filters on a registry holding s1 (repodir r1, a user script) and s2. */
  method ScenarioFilters() {
    var registry := new ScriptSet();
    var s1 := Script("s1", "", "", false, "", "", "", true, [], false, "r1");
    var s2 := Script("s2", "", "", false, "", "", "", false, [], false, "r2");
    assert LexLess("s1", "s2") by {
      assert "s2"[1..] == "2" && "s1"[1..] == "1";
    }
    registry.SetScripts([s1, s2]);
    var inR1 := registry.GetScriptsForRepodir("r1");
    SortedUnique(inR1, [s1]);
    var inR3 := registry.GetScriptsForRepodir("r3");
    SortedUnique(inR3, []);
    var users := registry.GetUserScripts();
    SortedUnique(users, [s1]);
  }

  /** Removing s1 once succeeds; removing it again throws and changes nothing. */
  method ScenarioRemove() {
    var registry := new ScriptSet();
    var s1 := Script("s1", "", "", false, "", "", "", true, [], false, "r1");
    var s2 := Script("s2", "", "", false, "", "", "", false, [], false, "r2");
    assert LexLess("s1", "s2") by {
      assert "s2"[1..] == "2" && "s1"[1..] == "1";
    }
    registry.SetScripts([s1, s2]);
    assert registry.scripts[0] == s1;
    var outcome := registry.RemoveScript("s1");
    assert outcome == Completed;
    var k :| 0 <= k < 2 && [s1, s2][k].id == "s1" && registry.scripts == [s1, s2][..k] + [s1, s2][k + 1..];
    assert k == 0;
    assert registry.scripts == [s2];
    var found := registry.GetScriptById("s1");
    assert found == None;
    outcome := registry.RemoveScript("s1");
    assert outcome == ThrewNullPointerException && registry.scripts == [s2];
  }

  /** A re-import that leaves some text fields empty keeps the local values. */
  method ScenarioMerge() {
    var registry := new ScriptSet();
    var origin := Script("a", "Old", "", false, "cat1", "", "", false, [Parameter("p1", "1")], false, "r");
    var incoming := Script("a", "", "New comment", true, "", "", "", false, [Parameter("p2", "2")], false, "r");
    registry.AddOrReplace(Some(origin));
    assert registry.scripts == [origin];
    registry.AddOrReplace(Some(incoming));
    assert registry.scripts == [Merge(origin, incoming)];
    var merged := registry.GetScriptById("a");
    assert merged == Some(Script("a", "Old", "New comment", true, "cat1", "", "", false, [Parameter("p2", "2")], false, "r"));
  }
}
