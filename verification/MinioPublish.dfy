/** Promotion of staged datasets in an object store that can fail at any request, with rollback.
    Keys are plain strings, so a "directory" is nothing but a common prefix. */
module MinioPublish {
  import opened Relational

  type Store = map<string, string>

  function At(s: Store, key: string): Cell<string> { if key in s then Val(s[key]) else Null }

  predicate Incomparable(a: string, b: string) { !(a <= b) && !(b <= a) }

  predicate InDatasets(prefixes: seq<string>, key: string) {
    exists i :: 0 <= i < |prefixes| && prefixes[i] <= key
  }

  /** No dataset prefix is nested in another, nor in or around a scratch root; the two roots differ. */
  ghost predicate Separate(prefixes: seq<string>, staging: string, rollback: string) {
    && Incomparable(staging, rollback)
    && (forall i, j | 0 <= i < j < |prefixes| :: Incomparable(prefixes[i], prefixes[j]))
    && (forall i | 0 <= i < |prefixes| :: Incomparable(prefixes[i], staging) && Incomparable(prefixes[i], rollback))
  }

  function StagingRoot(runId: string): string { "_staging/" + runId + "/" }
  function RollbackRoot(runId: string): string { "_rollback/" + runId + "/" }

  /** How the store answers the requests of one phase: all of them, some of them, or none. */
  datatype Service = Working | Faulty | Down

  datatype Outcome = StagedDatasetEmpty(prefix: string) | Promoted | RolledBack(backupComplete: bool)

  /** What a rollback leaves under a dataset key, when `saved` had been backed up before the failure. */
  function AfterRollback(before: Store, rollback: string, saved: set<string>, key: string): Cell<string> {
    if key in saved then At(before, key) else At(before, rollback + key)
  }

  /** Two prefixes of one key are prefixes of each other. */
  lemma {:induction false} PrefixesCompare(a: string, b: string, key: string)
    requires a <= key && b <= key
    ensures a <= b || b <= a
  {
    if |a| <= |b| { assert a == b[..|a|]; } else { assert b == a[..|b|]; }
  }

  lemma {:induction false} OnePrefix(a: string, b: string, key: string)
    requires Incomparable(a, b) && a <= key
    ensures !(b <= key)
  {
    if b <= key { PrefixesCompare(a, b, key); }
  }

  lemma {:induction false} Rebase(root: string, prefix: string, key: string)
    ensures root + prefix <= root + key <==> prefix <= key
    ensures prefix <= key ==> (root + key)[|root + prefix|..] == key[|prefix|..] && prefix + key[|prefix|..] == key
  {
    if root + prefix <= root + key {
      assert |prefix| <= |key|;
      assert (root + key)[..|root + prefix|] == root + key[..|prefix|];
      assert prefix == (root + prefix)[|root|..] == (root + key[..|prefix|])[|root|..];
    }
  }

  class Bucket {
    var objects: Store

    constructor (objects: Store)
      ensures this.objects == objects
    {
      this.objects := objects;
    }

    /** Copy every object under `source` to the same relative key under `target`. A faulty store
        may stop after any number of objects. */
    method CopyPrefix(source: string, target: string, service: Service) returns (ok: bool)
      requires Incomparable(source, target)
      modifies this
      ensures service.Working? ==> ok
      ensures forall x | !(target <= x) :: At(objects, x) == At(old(objects), x)
      ensures forall x | target <= x ::
                var original := At(old(objects), source + x[|target|..]);
                || At(objects, x) == (if original.Val? then original else At(old(objects), x))
                || (!ok && At(objects, x) == At(old(objects), x))
      ensures service.Down? ==> !ok && objects == old(objects)
    {
      if service.Down? { return false; }
      var todo := set key | key in objects && source <= key;
      while todo != {}
        invariant forall key | key in todo :: key in old(objects) && source <= key
        invariant forall x | !(target <= x) :: At(objects, x) == At(old(objects), x)
        invariant forall x | target <= x ::
                    var from := source + x[|target|..];
                    At(objects, x) == if from in old(objects) && from !in todo then At(old(objects), from)
                              else At(old(objects), x)
      {
        var fails: bool := *;
        if fails && !service.Working? { return false; }
        var key :| key in todo;
        OnePrefix(source, target, key);
        assert At(objects, key) == At(old(objects), key);
        assert key == source + key[|source|..];
        ghost var copied := target + key[|source|..];
        assert forall x | target <= x :: source + x[|target|..] == key <==> x == copied by {
          forall x | target <= x ensures source + x[|target|..] == key <==> x == copied {
            assert x == target + x[|target|..];
            if source + x[|target|..] == key { assert x[|target|..] == key[|source|..]; }
          }
        }
        objects := objects[target + key[|source|..] := objects[key]];
        todo := todo - {key};
      }
      return true;
    }

    /** Delete every object under `prefix`. A faulty store may delete only some, and report it. */
    method ClearPrefix(prefix: string, service: Service) returns (ok: bool)
      modifies this
      ensures service.Working? ==> ok
      ensures forall x | !(prefix <= x) :: At(objects, x) == At(old(objects), x)
      ensures forall x | prefix <= x :: At(objects, x).Null? || (!ok && At(objects, x) == At(old(objects), x))
      ensures service.Down? ==> !ok && objects == old(objects)
    {
      if service.Down? { return false; }
      var listed := set key | key in objects && prefix <= key;
      var failed: set<string> := *;
      failed := if service.Working? then {} else failed * listed;
      objects := objects - (listed - failed);
      return failed == {};
    }

    /** Clear one dataset and copy in what is kept for it under `root`. */
    method ReplaceOne(prefix: string, root: string, service: Service) returns (ok: bool)
      requires Incomparable(prefix, root)
      modifies this
      ensures service.Working? ==> ok
      ensures forall x | !(prefix <= x) :: At(objects, x) == At(old(objects), x)
      ensures ok ==> forall k | prefix <= k :: At(objects, k) == At(old(objects), root + k)
    {
      RootedIncomparable(root, prefix);
      ok := ClearPrefix(prefix, service);
      if !ok { return; }
      ghost var cleared := objects;
      ok := CopyPrefix(root + prefix, prefix, service);
      if !ok { return; }
      forall k | prefix <= k ensures At(objects, k) == At(old(objects), root + k) {
        Rebase(root, prefix, k);
        assert (root + prefix) + k[|prefix|..] == root + k;
        OnePrefix(root + prefix, prefix, root + k);
        assert At(cleared, root + k) == At(old(objects), root + k);
        assert At(cleared, k).Null?;
      }
    }

    /** Make every dataset hold exactly the copy kept for it under `root`: used to install the staged
        snapshot and, by the failure handler, to put the backup back. */
    method ReplaceAll(prefixes: seq<string>, root: string, service: Service) returns (ok: bool)
      requires forall i, j | 0 <= i < j < |prefixes| :: Incomparable(prefixes[i], prefixes[j])
      requires forall i | 0 <= i < |prefixes| :: Incomparable(prefixes[i], root)
      modifies this
      ensures service.Working? ==> ok
      ensures forall x | !InDatasets(prefixes, x) :: At(objects, x) == At(old(objects), x)
      ensures ok ==> forall k | InDatasets(prefixes, k) :: At(objects, k) == At(old(objects), root + k)
    {
      for i := 0 to |prefixes|
        invariant forall x | !InDatasets(prefixes, x) :: At(objects, x) == At(old(objects), x)
        invariant forall k | InDatasets(prefixes[..i], k) :: At(objects, k) == At(old(objects), root + k)
      {
        ghost var start := objects;
        ok := ReplaceOne(prefixes[i], root, service);
        assert forall x | !InDatasets(prefixes, x) :: !(prefixes[i] <= x);
        if !ok { return; }
        forall k | InDatasets(prefixes[..i + 1], k) ensures At(objects, k) == At(old(objects), root + k) {
          RootedOutside(prefixes, root, k);
          if !(prefixes[i] <= k) { InOthers(prefixes, i, k); }
        }
      }
      assert prefixes[..|prefixes|] == prefixes;
      return true;
    }

    /** Copy every dataset under the rollback root. `saved` names the objects copied. */
    method BackUp(prefixes: seq<string>, root: string, service: Service) returns (ok: bool, ghost saved: set<string>)
      requires forall i, j | 0 <= i < j < |prefixes| :: Incomparable(prefixes[i], prefixes[j])
      requires forall i | 0 <= i < |prefixes| :: Incomparable(prefixes[i], root)
      modifies this
      ensures forall x | !(root <= x) :: At(objects, x) == At(old(objects), x)
      ensures forall k | k in saved :: InDatasets(prefixes, k) && k in old(objects)
      ensures ok ==> forall k | InDatasets(prefixes, k) && k in old(objects) :: k in saved
      ensures forall k | InDatasets(prefixes, k) :: At(objects, root + k) == AfterRollback(old(objects), root, saved, k)
      ensures service.Working? ==> ok
      ensures service.Down? && prefixes != [] ==> !ok && saved == {}
    {
      saved := {};
      for i := 0 to |prefixes|
        invariant forall x | !(root <= x) :: At(objects, x) == At(old(objects), x)
        invariant forall k | k in saved :: InDatasets(prefixes[..i], k) && k in old(objects)
        invariant forall k | InDatasets(prefixes[..i], k) && k in old(objects) :: k in saved
        invariant forall k :: At(objects, root + k) == AfterRollback(old(objects), root, saved, k)
        invariant service.Down? ==> i == 0
      {
        ghost var start := objects;
        var prefix := prefixes[i];
        RootedIncomparable(root, prefix);
        ok := CopyPrefix(prefix, root + prefix, service);
        ghost var copied := set k | k in start && prefix <= k && !(root <= k) && At(objects, root + k) == At(start, k);
        SavedGrows(prefixes, i, root, start, objects, copied, saved, old(objects), ok);
        saved := saved + copied;
        if !ok {
          saved := if service.Down? then {} else saved;
          return;
        }
      }
      assert prefixes[..|prefixes|] == prefixes;
      return true, saved;
    }

    /** Promote all staged datasets; on a failure put back what was backed up and report it. The failure
        handler and the final clean-up are taken not to fail themselves. */
    method PromoteStaged(runId: string, prefixes: seq<string>, service: Service)
      returns (outcome: Outcome, ghost saved: set<string>)
      requires Separate(prefixes, StagingRoot(runId), RollbackRoot(runId))
      modifies this
      // refused before anything is touched, exactly when some dataset has nothing staged
      ensures outcome.StagedDatasetEmpty?
              <==> exists i :: 0 <= i < |prefixes| && NothingUnder(old(objects), StagingRoot(runId) + prefixes[i])
      ensures outcome.StagedDatasetEmpty? ==>
                objects == old(objects) && NothingUnder(objects, StagingRoot(runId) + outcome.prefix)
                  && outcome.prefix in prefixes
      // promoted: every dataset is exactly its staged copy
      ensures outcome.Promoted? ==>
                forall k | InDatasets(prefixes, k) :: At(objects, k) == At(old(objects), StagingRoot(runId) + k)
      // rolled back: every dataset is exactly its backup
      ensures outcome.RolledBack? ==> forall k | InDatasets(prefixes, k) ::
                At(objects, k) == AfterRollback(old(objects), RollbackRoot(runId), saved, k)
      ensures outcome.RolledBack? ==> forall k | k in saved :: InDatasets(prefixes, k) && k in old(objects)
      ensures outcome.RolledBack? && outcome.backupComplete ==>
                forall k | InDatasets(prefixes, k) && k in old(objects) :: k in saved
      // so after a complete backup into an empty rollback root, every dataset is as it was
      ensures outcome.RolledBack? && outcome.backupComplete && NothingUnder(old(objects), RollbackRoot(runId)) ==>
                forall k | InDatasets(prefixes, k) :: At(objects, k) == At(old(objects), k)
      // a store that answers everything promotes; one that goes down right after the check loses every dataset
      ensures service.Working? ==> !outcome.RolledBack?
      ensures service.Down? && prefixes != [] && !outcome.StagedDatasetEmpty? ==>
                outcome == RolledBack(false) && saved == {}
      ensures service.Down? && prefixes != [] && !outcome.StagedDatasetEmpty?
              && NothingUnder(old(objects), RollbackRoot(runId)) ==>
                forall k | InDatasets(prefixes, k) :: At(objects, k).Null?
      // whatever happened after the check: scratch roots end empty, everything else is untouched
      ensures !outcome.StagedDatasetEmpty? ==>
                NothingUnder(objects, StagingRoot(runId)) && NothingUnder(objects, RollbackRoot(runId))
      ensures forall x | !InDatasets(prefixes, x) && !(StagingRoot(runId) <= x) && !(RollbackRoot(runId) <= x) ::
                At(objects, x) == At(old(objects), x)
    {
      var staging, rollback := StagingRoot(runId), RollbackRoot(runId);
      saved := {};
      for i := 0 to |prefixes|
        invariant forall j | 0 <= j < i :: !NothingUnder(objects, staging + prefixes[j])
      {
        var listed := set key | key in objects && staging + prefixes[i] <= key;
        if listed == {} {
          forall x | staging + prefixes[i] <= x ensures At(objects, x).Null? { assert x !in listed; }
          return StagedDatasetEmpty(prefixes[i]), saved;
        }
        ghost var key :| key in listed;
        assert At(objects, key).Val?;
      }
      var ok;
      ok, saved := BackUp(prefixes, rollback, service);
      var backupComplete := ok;
      ghost var backedUp := objects;
      if ok { ok := ReplaceAll(prefixes, staging, service); }
      ghost var attempted := objects;
      assert forall x | !InDatasets(prefixes, x) :: At(attempted, x) == At(backedUp, x);
      if !ok {
        var restored := ReplaceAll(prefixes, rollback, Working);
      }
      ghost var settled := objects;
      forall k | InDatasets(prefixes, k)
        ensures At(settled, k) == if ok then At(old(objects), staging + k)
                                             else AfterRollback(old(objects), rollback, saved, k)
      {
        RootedOutside(prefixes, rollback, k);
        OnePrefix(staging, rollback, staging + k);
      }
      var cleared := ClearPrefix(staging, Working);
      cleared := ClearPrefix(rollback, Working);
      forall k | InDatasets(prefixes, k) ensures At(objects, k) == At(settled, k) {
        DatasetOutside(prefixes, staging, k);
        DatasetOutside(prefixes, rollback, k);
      }
      outcome := if ok then Promoted else RolledBack(backupComplete);
      forall k | InDatasets(prefixes, k) && NothingUnder(old(objects), rollback)
        ensures k !in saved ==> AfterRollback(old(objects), rollback, saved, k).Null?
      {
        assert rollback <= rollback + k;
      }
    }
  }

  ghost predicate NothingUnder(s: Store, prefix: string) {
    forall x | prefix <= x :: At(s, x).Null?
  }

  lemma {:induction false} DatasetOutside(prefixes: seq<string>, root: string, k: string)
    requires InDatasets(prefixes, k) && forall i | 0 <= i < |prefixes| :: Incomparable(prefixes[i], root)
    ensures !(root <= k)
  {
    var i :| 0 <= i < |prefixes| && prefixes[i] <= k;
    OnePrefix(prefixes[i], root, k);
  }

  /** One more dataset copied, completely or not, and the saved set accounts for it. */
  lemma {:induction false} SavedGrows(
      prefixes: seq<string>, i: nat, root: string, start: Store, end: Store, copied: set<string>, saved: set<string>,
      before: Store, ok: bool)
    requires i < |prefixes| && Incomparable(prefixes[i], root)
    requires forall i, j | 0 <= i < j < |prefixes| :: Incomparable(prefixes[i], prefixes[j])
    requires forall x | !(root <= x) :: At(start, x) == At(before, x)
    requires forall k | k in saved :: InDatasets(prefixes[..i], k) && k in before
    requires forall k | InDatasets(prefixes[..i], k) && k in before :: k in saved
    requires forall k :: At(start, root + k) == AfterRollback(before, root, saved, k)
    requires forall x | !(root + prefixes[i] <= x) :: At(end, x) == At(start, x)
    requires forall x | root + prefixes[i] <= x ::
               var original := At(start, prefixes[i] + x[|root + prefixes[i]|..]);
               At(end, x) == (if original.Val? then original else At(start, x)) || (!ok && At(end, x) == At(start, x))
    requires copied == set k | k in start && prefixes[i] <= k && !(root <= k) && At(end, root + k) == At(start, k)
    ensures forall x | !(root <= x) :: At(end, x) == At(before, x)
    ensures forall k | k in saved + copied :: InDatasets(prefixes[..i + 1], k) && k in before
    ensures ok ==> forall k | InDatasets(prefixes[..i + 1], k) && k in before :: k in saved + copied
    ensures forall k :: At(end, root + k) == AfterRollback(before, root, saved + copied, k)
  {
    var prefix := prefixes[i];
    forall x | !(root <= x) ensures At(end, x) == At(before, x) {
      assert root + prefix <= x ==> root <= x;
    }
    forall k | k in saved + copied ensures InDatasets(prefixes[..i + 1], k) && k in before {
      if k in saved {
        var j :| 0 <= j < i && prefixes[..i][j] <= k;
        assert prefixes[..i + 1][j] <= k;
      } else {
        assert prefixes[..i + 1][i] <= k;
        assert At(start, k) == At(before, k);
      }
    }
    forall k ensures At(end, root + k) == AfterRollback(before, root, saved + copied, k) {
      Rebase(root, prefix, k);
      if prefix <= k { OnePrefix(prefix, root, k); }
    }
    if ok {
      forall k | InDatasets(prefixes[..i + 1], k) && k in before ensures k in saved + copied {
        if prefix <= k {
          Rebase(root, prefix, k);
          OnePrefix(prefix, root, k);
          assert At(start, k) == At(before, k);
        } else {
          InOthers(prefixes, i, k);
        }
      }
    }
  }

  lemma {:induction false} InOthers(prefixes: seq<string>, i: nat, k: string)
    requires i < |prefixes| && InDatasets(prefixes[..i + 1], k) && !(prefixes[i] <= k)
    ensures InDatasets(prefixes[..i], k)
  {
    var j :| 0 <= j < i + 1 && prefixes[..i + 1][j] <= k;
    assert prefixes[..i][j] == prefixes[j];
  }

  lemma {:induction false} RootedIncomparable(root: string, prefix: string)
    requires Incomparable(prefix, root)
    ensures Incomparable(root + prefix, prefix)
  {
    assert root <= root + prefix;
    assert root == "" ==> root <= prefix;
    assert |root + prefix| > |prefix|;
    if prefix <= root + prefix { PrefixesCompare(prefix, root, root + prefix); }
  }

  /** A key under a scratch root is never a dataset key. */
  lemma {:induction false} RootedOutside(prefixes: seq<string>, root: string, key: string)
    requires forall i | 0 <= i < |prefixes| :: Incomparable(prefixes[i], root)
    ensures !InDatasets(prefixes, root + key)
  {
    forall i | 0 <= i < |prefixes| ensures !(prefixes[i] <= root + key) {
      if prefixes[i] <= root + key { OnePrefix(prefixes[i], root, root + key); }
    }
  }

  // ------------------------------------------------------------------ when a rollback restores

  /** Every dataset object is as it was before the call. */
  ghost predicate Restored(before: Store, rollback: string, prefixes: seq<string>, saved: set<string>) {
    forall k | InDatasets(prefixes, k) :: AfterRollback(before, rollback, saved, k) == At(before, k)
  }

  lemma {:induction false} RestoredIff(before: Store, rollback: string, prefixes: seq<string>, saved: set<string>)
    requires forall k | k in saved :: InDatasets(prefixes, k) && k in before
    ensures Restored(before, rollback, prefixes, saved)
       <==> forall k | InDatasets(prefixes, k) && k !in saved :: At(before, rollback + k) == At(before, k)
  {}

  /** What a caller can check beforehand: a rollback is sure to restore, however little had been saved when
      the failure came, exactly when the rollback root already mirrors the datasets. */
  lemma {:induction false} AlwaysRestoredIff(before: Store, rollback: string, prefixes: seq<string>)
    ensures (forall saved | (forall k | k in saved :: InDatasets(prefixes, k) && k in before) ::
               Restored(before, rollback, prefixes, saved))
       <==> forall k | InDatasets(prefixes, k) :: At(before, rollback + k) == At(before, k)
  {
    forall saved | (forall k | k in saved :: InDatasets(prefixes, k) && k in before)
      ensures (forall k | InDatasets(prefixes, k) :: At(before, rollback + k) == At(before, k)) ==>
                Restored(before, rollback, prefixes, saved)
    {
      RestoredIff(before, rollback, prefixes, saved);
    }
    RestoredIff(before, rollback, prefixes, {});
  }

  /** With an empty rollback root: restored exactly when everything had been backed up, which is
      certain once the backup loop has finished and not before. */
  lemma {:induction false} RestoredIffBackedUp(before: Store, rollback: string, prefixes: seq<string>,
      saved: set<string>)
    requires forall k | k in saved :: InDatasets(prefixes, k) && k in before
    requires NothingUnder(before, rollback)
    ensures Restored(before, rollback, prefixes, saved)
            <==> forall k | InDatasets(prefixes, k) && k in before :: k in saved
  {
    RestoredIff(before, rollback, prefixes, saved);
    assert forall k :: rollback <= rollback + k;
  }

  /** After a complete backup a stale rollback root still leaks in: restored exactly when each stale
      entry belongs to an object that exists. */
  lemma {:induction false} RestoredIffNothingStale(
      before: Store, rollback: string, prefixes: seq<string>, saved: set<string>)
    requires forall k | k in saved :: InDatasets(prefixes, k) && k in before
    requires forall k | InDatasets(prefixes, k) && k in before :: k in saved
    ensures Restored(before, rollback, prefixes, saved)
            <==> forall k | InDatasets(prefixes, k) && rollback + k in before :: k in before
  {
    RestoredIff(before, rollback, prefixes, saved);
  }

  /** A store that goes down right after the staging check: the handler clears a dataset it has no copy of. */
  method EarlyFailureLosesData() returns (before: Store, bucket: Bucket)
    ensures fresh(bucket)
    ensures "gold/part-0" in before && NothingUnder(before, RollbackRoot("r1"))
    ensures "gold/part-0" !in bucket.objects
  {
    var old_, staged := "gold/part-0", StagingRoot("r1") + "gold/part-1";
    before := map[old_ := "rows", staged := "new rows"];
    bucket := new Bucket(before);
    ScenarioIsSeparate();
    assert staged == "_staging/r1/gold/part-1" && RollbackRoot("r1") == "_rollback/r1/";
    forall x | RollbackRoot("r1") <= x ensures At(before, x).Null? {
      assert x[0] == RollbackRoot("r1")[0] && x[1] == RollbackRoot("r1")[1];
      assert old_[0] == 'g' && staged[1] == 's';
    }
    assert StagingRoot("r1") + ["gold/"][0] <= staged && At(before, staged).Val?;
    var outcome, _ := bucket.PromoteStaged("r1", ["gold/"], Down);
    assert ["gold/"][0] <= old_;
    assert InDatasets(["gold/"], old_);
    assert At(bucket.objects, old_).Null?;
  }

  lemma {:induction false} ScenarioIsSeparate()
    ensures Separate(["gold/"], StagingRoot("r1"), RollbackRoot("r1"))
  {
    var s, r, g := StagingRoot("r1"), RollbackRoot("r1"), "gold/";
    assert s == "_staging/r1/" && r == "_rollback/r1/";
    assert s[1] == 's' && r[1] == 'r' && s[0] == '_' && r[0] == '_' && g[0] == 'g';
    assert Incomparable(s, r) && Incomparable(g, s) && Incomparable(g, r);
  }
}
