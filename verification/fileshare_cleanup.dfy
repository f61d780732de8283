/** The fileshare reclamation pass (`Plugin.cleanup_fileshare`): it collects
    the content hashes this node still serves or works on in the non-reserved
    queues, then deletes every printable entry of the fileshare directory
    whose stem is not one of them, and counts the deletions. */
module FileshareCleanup {
  import opened Wrappers
  import opened PathSplit

  // ---------------------------------------------------------------------
  // Queues and the keep set
  // ---------------------------------------------------------------------

  /** One job of a queue snapshot: `hash`, `peer_` and `acquired_by_`. The
      two addresses may be `None`. */
  datatype Job = Job(hash: string, peer: Option<string>, acquiredBy: Option<string>)

  /** One named queue with its own address (`q.addr`, possibly `None`) and
      its jobs. The registry of queues is a sequence in the order of
      `queues.items()`. */
  datatype Queue = Queue(name: string, addr: Option<string>, jobs: seq<Job>)

  /** The job is hosted or claimed by the node that has address `addr`. The
      comparison is Python's `==` on a string or `None`, so a queue without an
      address owns every job that has no host or no claimant. */
  predicate OwnedBy(j: Job, addr: Option<string>) {
    j.peer == addr || j.acquiredBy == addr
  }

  /** The archive and default queues are skipped when collecting hashes. */
  predicate Reserved(name: string, archiveQueue: string, defaultQueue: string) {
    name == archiveQueue || name == defaultQueue
  }

  /** Hashes of the jobs in `jobs` owned by `addr` (the inner loop). */
  function OwnedHashes(jobs: seq<Job>, addr: Option<string>): set<string>
  {
    if |jobs| == 0 then {}
    else
      (if OwnedBy(jobs[0], addr) then {jobs[0].hash} else {})
      + OwnedHashes(jobs[1..], addr)
  }

  /** `keep_hashes`: the hashes collected from every non-reserved queue. */
  function KeepHashes(queues: seq<Queue>, archiveQueue: string, defaultQueue: string): set<string>
  {
    if |queues| == 0 then {}
    else
      (if Reserved(queues[0].name, archiveQueue, defaultQueue) then {}
       else OwnedHashes(queues[0].jobs, queues[0].addr))
      + KeepHashes(queues[1..], archiveQueue, defaultQueue)
  }

  /** Reference definition of retention: `h` is the hash of some job, in some
      non-reserved queue, that is hosted or claimed by that queue's address. */
  ghost predicate Retained(queues: seq<Queue>, archiveQueue: string, defaultQueue: string, h: string) {
    exists i, k ::
      && 0 <= i < |queues|
      && 0 <= k < |queues[i].jobs|
      && !Reserved(queues[i].name, archiveQueue, defaultQueue)
      && OwnedBy(queues[i].jobs[k], queues[i].addr)
      && queues[i].jobs[k].hash == h
  }

  lemma {:induction false} OwnedHashesSpec(jobs: seq<Job>, addr: Option<string>, h: string)
    ensures h in OwnedHashes(jobs, addr)
        <==> exists k :: 0 <= k < |jobs| && OwnedBy(jobs[k], addr) && jobs[k].hash == h
    decreases |jobs|
  {
    if |jobs| > 0 {
      OwnedHashesSpec(jobs[1..], addr, h);
      if h in OwnedHashes(jobs[1..], addr) {
        var k :| 0 <= k < |jobs[1..]| && OwnedBy(jobs[1..][k], addr) && jobs[1..][k].hash == h;
        assert jobs[k + 1] == jobs[1..][k];
      }
      if exists k :: 0 <= k < |jobs| && OwnedBy(jobs[k], addr) && jobs[k].hash == h {
        var k :| 0 <= k < |jobs| && OwnedBy(jobs[k], addr) && jobs[k].hash == h;
        if k > 0 {
          assert jobs[1..][k - 1] == jobs[k];
        }
      }
    }
  }

  /** The computed keep set is exactly the set of retained hashes, in both
      directions. */
  lemma {:induction false} KeepHashesSpec(queues: seq<Queue>, archiveQueue: string, defaultQueue: string, h: string)
    ensures h in KeepHashes(queues, archiveQueue, defaultQueue)
        <==> Retained(queues, archiveQueue, defaultQueue, h)
    decreases |queues|
  {
    if |queues| > 0 {
      var q := queues[0];
      var tail := queues[1..];
      KeepHashesSpec(tail, archiveQueue, defaultQueue, h);
      OwnedHashesSpec(q.jobs, q.addr, h);
      if h in KeepHashes(queues, archiveQueue, defaultQueue) {
        if !Reserved(q.name, archiveQueue, defaultQueue) && h in OwnedHashes(q.jobs, q.addr) {
          var k :| 0 <= k < |q.jobs| && OwnedBy(q.jobs[k], q.addr) && q.jobs[k].hash == h;
          assert queues[0].jobs[k] == q.jobs[k];
        } else {
          assert Retained(tail, archiveQueue, defaultQueue, h);
          var i, k :| && 0 <= i < |tail| && 0 <= k < |tail[i].jobs|
                      && !Reserved(tail[i].name, archiveQueue, defaultQueue)
                      && OwnedBy(tail[i].jobs[k], tail[i].addr) && tail[i].jobs[k].hash == h;
          assert queues[i + 1] == tail[i];
        }
      }
      if Retained(queues, archiveQueue, defaultQueue, h) {
        var i, k :| && 0 <= i < |queues| && 0 <= k < |queues[i].jobs|
                    && !Reserved(queues[i].name, archiveQueue, defaultQueue)
                    && OwnedBy(queues[i].jobs[k], queues[i].addr) && queues[i].jobs[k].hash == h;
        if i > 0 {
          assert tail[i - 1] == queues[i];
        }
      }
    }
  }

  /** The keep set of a concatenation is the union of the keep sets. */
  lemma {:induction false} KeepHashesAppend(a: seq<Queue>, b: seq<Queue>, archiveQueue: string, defaultQueue: string)
    ensures KeepHashes(a + b, archiveQueue, defaultQueue)
         == KeepHashes(a, archiveQueue, defaultQueue) + KeepHashes(b, archiveQueue, defaultQueue)
    decreases |a|
  {
    if |a| > 0 {
      assert (a + b)[1..] == a[1..] + b;
      KeepHashesAppend(a[1..], b, archiveQueue, defaultQueue);
    } else {
      assert a + b == b;
    }
  }

  /** A reserved queue contributes nothing to the keep set, whatever its jobs
      and address: removing it from anywhere in the registry changes nothing. */
  lemma ReservedQueueAddsNothing(before: seq<Queue>, q: Queue, after: seq<Queue>, archiveQueue: string, defaultQueue: string)
    requires Reserved(q.name, archiveQueue, defaultQueue)
    ensures KeepHashes(before + [q] + after, archiveQueue, defaultQueue)
         == KeepHashes(before + after, archiveQueue, defaultQueue)
  {
    KeepHashesAppend(before + [q], after, archiveQueue, defaultQueue);
    KeepHashesAppend(before, [q], archiveQueue, defaultQueue);
    KeepHashesAppend(before, after, archiveQueue, defaultQueue);
    assert [q][1..] == [];
  }

  /** A non-reserved queue without an address keeps the hash of every job of
      its own that nobody has claimed, since `None == None` holds. */
  lemma UnaddressedQueueKeepsUnclaimed(queues: seq<Queue>, archiveQueue: string, defaultQueue: string, i: nat, k: nat)
    requires i < |queues| && k < |queues[i].jobs|
    requires !Reserved(queues[i].name, archiveQueue, defaultQueue)
    requires queues[i].addr == None && queues[i].jobs[k].acquiredBy == None
    ensures queues[i].jobs[k].hash in KeepHashes(queues, archiveQueue, defaultQueue)
  {
    KeepHashesSpec(queues, archiveQueue, defaultQueue, queues[i].jobs[k].hash);
  }

  // ---------------------------------------------------------------------
  // The fileshare directory and the deletion pass
  // ---------------------------------------------------------------------

  /** What `Path.is_dir()` says of an entry. */
  datatype Kind = File | Dir

  /** The direct children of the fileshare directory, by name. */
  type Entries = map<string, Kind>

  /** The fileshare directory, which may not exist. */
  datatype Store = Missing | Present(entries: Entries)

  /** Outcomes of the filesystem calls the model cannot see: files whose
      `unlink` raises, and directories that `rmtree(ignore_errors=True)`
      fails to remove (its errors are suppressed, so the entry stays). */
  datatype Faults = Faults(unlinkFails: set<string>, rmtreeFails: set<string>)

  /** The pass so far: the directory and the deletion count `n`. */
  datatype Report = Report(store: Store, deleted: nat)

  datatype CleanupError =
    | UnlinkFailed(name: string, left: Entries)  // `p.unlink()` raised; `left` is the directory at that point
    | CountUnassigned                            // `return n` before `n` is bound

  /** The extensions the pass considers; any other entry is left alone. */
  const PrintableSuffixes: set<string> := {"", ".gjob", ".gcode", ".gco"}

  /** The pass deletes entry `name`: its extension is printable and its stem
      is not a hash to keep. */
  predicate Doomed(name: string, keep: set<string>) {
    var (stem, suffix) := SplitExt(name);
    suffix in PrintableSuffixes && stem !in keep
  }

  /** Reference definition of the pass: the entries it chooses to delete. */
  function Condemned(entries: Entries, keep: set<string>): set<string> {
    set n | n in entries && Doomed(n, keep)
  }

  /** Chosen directories that rmtree leaves in place. */
  function Stuck(entries: Entries, keep: set<string>, faults: Faults): set<string> {
    set n | n in Condemned(entries, keep) && entries[n] == Dir && n in faults.rmtreeFails
  }

  /** Chosen files whose unlink raises. */
  function Blocked(entries: Entries, keep: set<string>, faults: Faults): set<string> {
    set n | n in Condemned(entries, keep) && entries[n] == File && n in faults.unlinkFails
  }

  predicate Distinct(names: seq<string>) {
    forall i, j :: 0 <= i < j < |names| ==> names[i] != names[j]
  }

  /** `listing` is an `os.listdir` of `entries`: each name once, in some order. */
  ghost predicate IsListing(listing: seq<string>, entries: Entries) {
    Distinct(listing) && forall n :: n in listing <==> n in entries
  }

  /** The directory after the pass visits doomed entry `d`: removed, unless
      it is a directory that rmtree cannot remove. */
  function AfterVisit(entries: Entries, d: string, faults: Faults): Entries
    requires d in entries
  {
    if entries[d] == Dir && d in faults.rmtreeFails then entries else entries - {d}
  }

  /** The loop over `os.listdir`: visits `names` in order, deleting each
      doomed entry, and stops at the first unlink that raises. */
  function Sweep(entries: Entries, names: seq<string>, keep: set<string>, faults: Faults): Result<Report, CleanupError>
    requires Distinct(names)
    requires forall n :: n in names ==> n in entries
    decreases |names|
  {
    if |names| == 0 then Success(Report(Present(entries), 0))
    else
      var d := names[0];
      HeadNotInTail(names);
      if !Doomed(d, keep) then Sweep(entries, names[1..], keep, faults)
      else if entries[d] == File && d in faults.unlinkFails then Failure(UnlinkFailed(d, entries))
      else
        match Sweep(AfterVisit(entries, d, faults), names[1..], keep, faults)
        case Success(r) => Success(Report(r.store, r.deleted + 1))
        case Failure(e) => Failure(e)
  }

  /** The doomed names among `names`. */
  function DoomedAmong(names: seq<string>, keep: set<string>): set<string> {
    set n | n in names && Doomed(n, keep)
  }

  /** The names of `chosen` whose removal from `entries` takes effect: all
      but the directories rmtree cannot remove. */
  function Removable(entries: Entries, chosen: set<string>, faults: Faults): set<string> {
    set n | n in chosen && n in entries && !(entries[n] == Dir && n in faults.rmtreeFails)
  }

  /** The doomed names among `names` whose removal actually takes effect. */
  function RemovedAmong(entries: Entries, names: seq<string>, keep: set<string>, faults: Faults): set<string> {
    Removable(entries, DoomedAmong(names, keep), faults)
  }

  /** What a sweep over `names` promises, stated without following the loop:
      it fails exactly when some doomed file cannot be unlinked; on success it
      has removed every doomed entry but the stuck directories and counted
      every doomed entry; on failure it names such a file, and the directory
      it leaves has lost only doomed entries. */
  ghost predicate SweepMeets(entries: Entries, names: seq<string>, keep: set<string>, faults: Faults, r: Result<Report, CleanupError>)
    requires forall n :: n in names ==> n in entries
  {
    var doomed := DoomedAmong(names, keep);
    && (r.Success? <==> forall n :: n in doomed ==> !(entries[n] == File && n in faults.unlinkFails))
    && (r.Success? ==>
          r.value == Report(Present(entries - RemovedAmong(entries, names, keep, faults)), |doomed|))
    && (r.Failure? ==>
          && r.error.UnlinkFailed?
          && r.error.name in doomed
          && entries[r.error.name] == File
          && r.error.name in faults.unlinkFails
          && r.error.name in r.error.left
          && r.error.left.Keys <= entries.Keys
          && entries.Keys - r.error.left.Keys <= doomed
          && forall n :: n in r.error.left ==> r.error.left[n] == entries[n])
  }

  /** The first name of a duplicate-free listing does not recur in its tail. */
  lemma HeadNotInTail(names: seq<string>)
    requires Distinct(names) && |names| > 0
    ensures names[0] !in names[1..]
    ensures Distinct(names[1..])
    ensures forall n :: n in names <==> n == names[0] || n in names[1..]
  {
    assert names == [names[0]] + names[1..];
  }

  /** Sweep step for a name the pass does not delete. */
  lemma SweepSkipStep(entries: Entries, names: seq<string>, keep: set<string>, faults: Faults)
    requires Distinct(names) && |names| > 0
    requires forall n :: n in names ==> n in entries
    requires !Doomed(names[0], keep)
    requires SweepMeets(entries, names[1..], keep, faults, Sweep(entries, names[1..], keep, faults))
    ensures SweepMeets(entries, names, keep, faults, Sweep(entries, names, keep, faults))
  {
    HeadNotInTail(names);
    assert DoomedAmong(names, keep) == DoomedAmong(names[1..], keep);
    assert RemovedAmong(entries, names, keep, faults) == RemovedAmong(entries, names[1..], keep, faults);
  }

  /** Splitting off a doomed first name. */
  lemma DoomedHead(names: seq<string>, keep: set<string>)
    requires Distinct(names) && |names| > 0
    requires Doomed(names[0], keep)
    ensures DoomedAmong(names, keep) == {names[0]} + DoomedAmong(names[1..], keep)
    ensures |DoomedAmong(names, keep)| == |DoomedAmong(names[1..], keep)| + 1
  {
    HeadNotInTail(names);
    assert names[0] !in DoomedAmong(names[1..], keep);
  }

  /** Removing `d` and then the rest of `chosen` is removing all of them. */
  lemma RemovableSplit(entries: Entries, d: string, chosen: set<string>, faults: Faults)
    requires d in entries && d !in chosen
    ensures entries - Removable(entries, {d} + chosen, faults)
         == AfterVisit(entries, d, faults) - Removable(AfterVisit(entries, d, faults), chosen, faults)
  {
    var rest := AfterVisit(entries, d, faults);
    if entries[d] == Dir && d in faults.rmtreeFails {
      assert Removable(entries, {d} + chosen, faults) == Removable(rest, chosen, faults);
    } else {
      assert Removable(entries, {d} + chosen, faults) == {d} + Removable(rest, chosen, faults);
      MinusUnion(entries, {d}, Removable(rest, chosen, faults));
    }
  }

  /** Removals are the head's own removal, if any, plus those of the tail. */
  lemma RemovedHead(entries: Entries, names: seq<string>, keep: set<string>, faults: Faults)
    requires Distinct(names) && |names| > 0
    requires forall n :: n in names ==> n in entries
    requires Doomed(names[0], keep)
    ensures forall n :: n in names[1..] ==> n in AfterVisit(entries, names[0], faults)
    ensures entries - RemovedAmong(entries, names, keep, faults)
         == AfterVisit(entries, names[0], faults) - RemovedAmong(AfterVisit(entries, names[0], faults), names[1..], keep, faults)
  {
    HeadNotInTail(names);
    DoomedHead(names, keep);
    VisitKeepsOthers(entries, names[0], names[1..], faults);
    RemovableSplit(entries, names[0], DoomedAmong(names[1..], keep), faults);
  }

  /** Visiting `d` leaves every other listed name in place, unchanged. */
  lemma VisitKeepsOthers(entries: Entries, d: string, tail: seq<string>, faults: Faults)
    requires d in entries && d !in tail
    requires forall n :: n in tail ==> n in entries
    ensures forall n :: n in tail ==>
              n in AfterVisit(entries, d, faults) && AfterVisit(entries, d, faults)[n] == entries[n]
  {
  }

  /** Removing two sets of keys at once is removing one, then the other. */
  lemma MinusUnion(m: Entries, a: set<string>, b: set<string>)
    ensures m - (a + b) == (m - a) - b
  {
  }

  /** Sweep step for a doomed entry that is removed (or left by rmtree). */
  lemma SweepDeleteStep(entries: Entries, names: seq<string>, keep: set<string>, faults: Faults)
    requires Distinct(names) && |names| > 0
    requires forall n :: n in names ==> n in entries
    requires Doomed(names[0], keep)
    requires !(entries[names[0]] == File && names[0] in faults.unlinkFails)
    requires forall n :: n in names[1..] ==> n in AfterVisit(entries, names[0], faults)
    requires SweepMeets(AfterVisit(entries, names[0], faults), names[1..], keep, faults,
                        Sweep(AfterVisit(entries, names[0], faults), names[1..], keep, faults))
    ensures SweepMeets(entries, names, keep, faults, Sweep(entries, names, keep, faults))
  {
    HeadNotInTail(names);
    DoomedHead(names, keep);
    RemovedHead(entries, names, keep, faults);
    var d := names[0];
    var rest := AfterVisit(entries, d, faults);
    VisitKeepsOthers(entries, d, names[1..], faults);
    var tr := Sweep(rest, names[1..], keep, faults);
    var r := Sweep(entries, names, keep, faults);
    if tr.Failure? {
      assert r == tr;
    } else {
      assert r.value.deleted == tr.value.deleted + 1;
    }
  }

  lemma {:induction false} SweepSpec(entries: Entries, names: seq<string>, keep: set<string>, faults: Faults)
    requires Distinct(names)
    requires forall n :: n in names ==> n in entries
    ensures SweepMeets(entries, names, keep, faults, Sweep(entries, names, keep, faults))
    decreases |names|
  {
    if |names| == 0 {
      assert DoomedAmong(names, keep) == {};
      assert RemovedAmong(entries, names, keep, faults) == {};
      assert entries - {} == entries;
    } else {
      var d := names[0];
      HeadNotInTail(names);
      if !Doomed(d, keep) {
        SweepSpec(entries, names[1..], keep, faults);
        SweepSkipStep(entries, names, keep, faults);
      } else if entries[d] == File && d in faults.unlinkFails {
        assert d in DoomedAmong(names, keep);
      } else {
        RemovedHead(entries, names, keep, faults);
        SweepSpec(AfterVisit(entries, d, faults), names[1..], keep, faults);
        SweepDeleteStep(entries, names, keep, faults);
      }
    }
  }

  /** A listing's doomed names are the condemned entries, and those whose
      removal takes effect are the condemned entries that are not stuck. */
  lemma ListingCovers(entries: Entries, listing: seq<string>, keep: set<string>, faults: Faults)
    requires IsListing(listing, entries)
    ensures DoomedAmong(listing, keep) == Condemned(entries, keep)
    ensures RemovedAmong(entries, listing, keep, faults) == Condemned(entries, keep) - Stuck(entries, keep, faults)
  {
  }

  /** What the whole pass promises over a present directory: it fails exactly
      when a condemned file cannot be unlinked. On success, the directory
      left is the original minus the condemned entries (bar the directories
      rmtree could not remove), and the count is the number of condemned
      entries. On failure, the error names such a file and the directory has
      lost only condemned entries. */
  ghost predicate Reclaims(entries: Entries, keep: set<string>, faults: Faults, r: Result<Report, CleanupError>) {
    var condemned := Condemned(entries, keep);
    && (r.Success? <==> Blocked(entries, keep, faults) == {})
    && (r.Success? ==>
          r.value == Report(Present(entries - (condemned - Stuck(entries, keep, faults))), |condemned|))
    && (r.Failure? ==>
          && r.error.UnlinkFailed?
          && r.error.name in Blocked(entries, keep, faults)
          && r.error.name in r.error.left
          && r.error.left.Keys <= entries.Keys
          && entries.Keys - r.error.left.Keys <= condemned
          && forall n :: n in r.error.left ==> r.error.left[n] == entries[n])
  }

  /** A sweep over a whole listing does what the pass promises. */
  lemma SweepReclaims(entries: Entries, listing: seq<string>, keep: set<string>, faults: Faults, r: Result<Report, CleanupError>)
    requires IsListing(listing, entries)
    requires SweepMeets(entries, listing, keep, faults, r)
    ensures Reclaims(entries, keep, faults, r)
  {
    ListingCovers(entries, listing, keep, faults);
    BlockedEmptyIff(entries, keep, faults);
  }

  lemma BlockedEmptyIff(entries: Entries, keep: set<string>, faults: Faults)
    ensures (forall n :: n in Condemned(entries, keep) ==> !(entries[n] == File && n in faults.unlinkFails))
       <==> Blocked(entries, keep, faults) == {}
  {
    var condemned := Condemned(entries, keep);
    if exists n :: n in condemned && entries[n] == File && n in faults.unlinkFails {
      var n :| n in condemned && entries[n] == File && n in faults.unlinkFails;
      assert n in Blocked(entries, keep, faults);
    }
  }

  /** `cleanup_fileshare`, with the fileshare directory, the order in which
      `os.listdir` returns its entries, the queue registry, the two reserved
      queue names and the filesystem's failures as inputs. A missing
      directory reclaims nothing.

      Deviations from plugin.py as written, each the evidently intended
      behaviour: line 105 returns `n` before it is assigned, which raises;
      here a missing directory gives 0 (CleanupAsWritten keeps the raising
      version). `os`, `shutil`, `ARCHIVE_QUEUE` and `DEFAULT_QUEUE` are never
      imported or defined there; the modules are taken as imported and the
      two queue names are parameters. The tests call `_cleanup_fileshare`,
      a name the plugin does not define; their expected outcomes are checked
      against this function. */
  function CleanupFileshare(
    store: Store, listing: seq<string>, queues: seq<Queue>,
    archiveQueue: string, defaultQueue: string, faults: Faults
  ): (r: Result<Report, CleanupError>)
    requires store.Present? ==> IsListing(listing, store.entries)
    ensures store.Missing? ==> r == Success(Report(Missing, 0))
    ensures store.Present? ==> Reclaims(store.entries, KeepHashes(queues, archiveQueue, defaultQueue), faults, r)
  {
    match store
    case Missing => Success(Report(Missing, 0))
    case Present(entries) =>
      var keep := KeepHashes(queues, archiveQueue, defaultQueue);
      SweepSpec(entries, listing, keep, faults);
      SweepReclaims(entries, listing, keep, faults, Sweep(entries, listing, keep, faults));
      Sweep(entries, listing, keep, faults)
  }

  /** An entry whose stem is the hash of a job hosted or claimed by its own
      queue's address, in a queue that is not reserved, survives the pass. */
  lemma CleanupKeepsOwned(
    store: Store, listing: seq<string>, queues: seq<Queue>,
    archiveQueue: string, defaultQueue: string, faults: Faults,
    name: string, i: nat, k: nat)
    requires store.Present? && IsListing(listing, store.entries)
    requires name in store.entries
    requires i < |queues| && k < |queues[i].jobs|
    requires !Reserved(queues[i].name, archiveQueue, defaultQueue)
    requires OwnedBy(queues[i].jobs[k], queues[i].addr)
    requires SplitExt(name).0 == queues[i].jobs[k].hash
    ensures var r := CleanupFileshare(store, listing, queues, archiveQueue, defaultQueue, faults);
            && (r.Success? ==> r.value.store.Present? && name in r.value.store.entries)
            && (r.Failure? ==> name in r.error.left)
  {
    var keep := KeepHashes(queues, archiveQueue, defaultQueue);
    KeepHashesSpec(queues, archiveQueue, defaultQueue, SplitExt(name).0);
    assert name !in Condemned(store.entries, keep);
  }

  /** An entry whose extension is not printable survives the pass, whatever
      the queues hold. */
  lemma CleanupIgnoresForeignSuffix(
    store: Store, listing: seq<string>, queues: seq<Queue>,
    archiveQueue: string, defaultQueue: string, faults: Faults, name: string)
    requires store.Present? && IsListing(listing, store.entries)
    requires name in store.entries
    requires SplitExt(name).1 !in PrintableSuffixes
    ensures var r := CleanupFileshare(store, listing, queues, archiveQueue, defaultQueue, faults);
            && (r.Success? ==> r.value.store.Present? && name in r.value.store.entries)
            && (r.Failure? ==> name in r.error.left)
  {
    assert name !in Condemned(store.entries, KeepHashes(queues, archiveQueue, defaultQueue));
  }

  /** After a successful pass, every printable entry left either has its stem
      in the keep set or is a condemned directory rmtree could not remove. */
  lemma CleanupLeavesOnlyKept(
    store: Store, listing: seq<string>, queues: seq<Queue>,
    archiveQueue: string, defaultQueue: string, faults: Faults)
    requires store.Present? && IsListing(listing, store.entries)
    requires CleanupFileshare(store, listing, queues, archiveQueue, defaultQueue, faults).Success?
    ensures var left := CleanupFileshare(store, listing, queues, archiveQueue, defaultQueue, faults).value.store;
            var keep := KeepHashes(queues, archiveQueue, defaultQueue);
            && left.Present?
            && forall n :: n in left.entries && SplitExt(n).1 in PrintableSuffixes ==>
                 SplitExt(n).0 in keep || n in Stuck(store.entries, keep, faults)
  {
  }

  /** Running the pass a second time with the same queues deletes only the
      directories the first pass could not remove, and nothing at all when
      there were none: the pass is idempotent. */
  lemma SecondPassDeletesNothing(
    store: Store, listing: seq<string>, queues: seq<Queue>,
    archiveQueue: string, defaultQueue: string, faults: Faults,
    listing2: seq<string>, faults2: Faults)
    requires store.Present? && IsListing(listing, store.entries)
    requires CleanupFileshare(store, listing, queues, archiveQueue, defaultQueue, faults).Success?
    requires var first := CleanupFileshare(store, listing, queues, archiveQueue, defaultQueue, faults).value.store;
             first.Present? && IsListing(listing2, first.entries)
    ensures var first := CleanupFileshare(store, listing, queues, archiveQueue, defaultQueue, faults).value.store;
            var keep := KeepHashes(queues, archiveQueue, defaultQueue);
            var second := CleanupFileshare(first, listing2, queues, archiveQueue, defaultQueue, faults2);
            && second.Success?
            && second.value.deleted == |Stuck(store.entries, keep, faults)|
            && (Stuck(store.entries, keep, faults) == {} ==> second == Success(Report(first, 0)))
  {
    var keep := KeepHashes(queues, archiveQueue, defaultQueue);
    var entries := store.entries;
    var left := entries - (Condemned(entries, keep) - Stuck(entries, keep, faults));
    ResidueIsStuck(entries, keep, faults, faults2);
    var second := CleanupFileshare(Present(left), listing2, queues, archiveQueue, defaultQueue, faults2);
    assert Reclaims(left, keep, faults2, second);
    if Stuck(entries, keep, faults) == {} {
      assert left - ({} - Stuck(left, keep, faults2)) == left;
    }
  }

  /** What a successful pass leaves behind holds no condemned entry but the
      stuck directories, so a second pass can only pick those. */
  lemma ResidueIsStuck(entries: Entries, keep: set<string>, faults: Faults, faults2: Faults)
    ensures var left := entries - (Condemned(entries, keep) - Stuck(entries, keep, faults));
            && Condemned(left, keep) == Stuck(entries, keep, faults)
            && Blocked(left, keep, faults2) == {}
  {
    var left := entries - (Condemned(entries, keep) - Stuck(entries, keep, faults));
    assert Condemned(left, keep) == Stuck(entries, keep, faults);
  }

  /** An existing but empty directory: nothing is deleted and nothing changes. */
  lemma EmptyStoreDeletesNothing(queues: seq<Queue>, archiveQueue: string, defaultQueue: string, faults: Faults)
    ensures CleanupFileshare(Present(map[]), [], queues, archiveQueue, defaultQueue, faults)
         == Success(Report(Present(map[]), 0))
  {
    var keep := KeepHashes(queues, archiveQueue, defaultQueue);
    assert Condemned(map[], keep) == {};
  }

  /** `cleanup_fileshare` as written: when the directory is missing it returns
      `n` before `n` is assigned, which raises instead of returning 0. */
  function CleanupAsWritten(
    store: Store, listing: seq<string>, queues: seq<Queue>,
    archiveQueue: string, defaultQueue: string, faults: Faults
  ): (r: Result<Report, CleanupError>)
    requires store.Present? ==> IsListing(listing, store.entries)
    ensures store.Missing? ==> r == Failure(CountUnassigned)
    ensures store.Present? ==> Reclaims(store.entries, KeepHashes(queues, archiveQueue, defaultQueue), faults, r)
  {
    match store
    case Missing => Failure(CountUnassigned)
    case Present(_) => CleanupFileshare(store, listing, queues, archiveQueue, defaultQueue, faults)
  }

  /** The counterexample: a missing fileshare directory makes the code as
      written raise, where the corrected pass reports 0 deletions. */
  lemma MissingStoreDiscrepancy(listing: seq<string>, queues: seq<Queue>, archiveQueue: string, defaultQueue: string, faults: Faults)
    ensures CleanupAsWritten(Missing, listing, queues, archiveQueue, defaultQueue, faults).Failure?
    ensures CleanupFileshare(Missing, listing, queues, archiveQueue, defaultQueue, faults) == Success(Report(Missing, 0))
  {
  }

  /** A dot-file such as `.lock` has no extension, and the empty extension is
      printable, so the pass deletes it unless its whole name is a hash to
      keep. */
  lemma CleanupRemovesDotFiles(
    store: Store, listing: seq<string>, queues: seq<Queue>,
    archiveQueue: string, defaultQueue: string, faults: Faults, rest: string)
    requires store.Present? && IsListing(listing, store.entries)
    requires '.' !in rest && '/' !in rest
    requires "." + rest in store.entries && store.entries["." + rest] == File
    requires "." + rest !in KeepHashes(queues, archiveQueue, defaultQueue)
    ensures var r := CleanupFileshare(store, listing, queues, archiveQueue, defaultQueue, faults);
            r.Success? ==> r.value.store.Present? && "." + rest !in r.value.store.entries
  {
    LeadingDotsNoExtension([], ".", rest);
    assert [] + "." + rest == "." + rest;
    assert "." + rest in Condemned(store.entries, KeepHashes(queues, archiveQueue, defaultQueue));
  }
}
