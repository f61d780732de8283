/** The outcomes the plugin's cleanup tests expect, derived from the model.
    The hashes and addresses are parameters standing for the tests' "a" to
    "d", "peer2" and the queue's address; the concrete instances follow. */
module CleanupExamples {
  import opened Wrappers
  import opened Strings
  import opened PathSplit
  import opened FileshareCleanup

  /** A plain hash: non-empty, with no dot and no slash. */
  predicate PlainHash(h: string) {
    |h| > 0 && '.' !in h && '/' !in h
  }

  /** The file the test creates for hash `h`. */
  function Gcode(h: string): string {
    h + ".gcode"
  }

  /** The test's single queue "q": job a is hosted by the queue's address,
      job b is claimed by it, jobs c and d belong to another peer. */
  function TestQueues(a: string, b: string, c: string, d: string, addr: string, other: string): seq<Queue> {
    [Queue("q", Some(addr), [
      Job(a, Some(addr), None),
      Job(b, Some(other), Some(addr)),
      Job(c, Some(other), None),
      Job(d, Some(other), None)])]
  }

  /** The test's directory: `a.gcode`, `b.gcode`, `c.gcode` and a directory `d`. */
  function TestEntries(a: string, b: string, c: string, d: string): Entries {
    map[Gcode(a) := File, Gcode(b) := File, Gcode(c) := File, d := Dir]
  }

  lemma TestKeepHashes(a: string, b: string, c: string, d: string, addr: string, other: string)
    requires addr != other
    ensures KeepHashes(TestQueues(a, b, c, d, addr, other), "archive", "default") == {a, b}
  {
    var queues := TestQueues(a, b, c, d, addr, other);
    var jobs := queues[0].jobs;
    assert OwnedHashes(jobs[3..], Some(addr)) == {} by {
      assert jobs[3..][1..] == [];
    }
    assert jobs[2..][1..] == jobs[3..];
    assert OwnedHashes(jobs[2..], Some(addr)) == {};
    assert jobs[1..][1..] == jobs[2..];
    assert OwnedHashes(jobs[1..], Some(addr)) == {b};
    assert OwnedHashes(jobs, Some(addr)) == {a, b};
    assert queues[1..] == [];
  }

  /** A plain hash with the `.gcode` extension splits back into the hash and
      the extension. */
  lemma GcodeSplits(h: string)
    requires PlainHash(h)
    ensures SplitExt(Gcode(h)) == (h, ".gcode")
  {
    LastIndexUnique(h, '/', -1);
    assert BaseName(h) == h;
    assert h[0] != '.';
    assert ".gcode"[1..] == "gcode";
    SplitExtJoin(h, ".gcode");
  }

  /** So such a file is doomed exactly when the hash is not kept. */
  lemma GcodeDoomed(h: string, keep: set<string>)
    requires PlainHash(h)
    ensures Doomed(Gcode(h), keep) <==> h !in keep
  {
    GcodeSplits(h);
    assert ".gcode" in PrintableSuffixes;
  }

  lemma GcodeInjective(h: string, g: string)
    requires Gcode(h) == Gcode(g)
    ensures h == g
  {
    assert h == Gcode(h)[..|h|];
  }

  /** The test's kept files, `a.gcode` and `b.gcode`, are not doomed. */
  lemma TestKeptNotDoomed(a: string, b: string)
    requires PlainHash(a) && PlainHash(b)
    ensures !Doomed(Gcode(a), {a, b}) && !Doomed(Gcode(b), {a, b})
  {
    GcodeDoomed(a, {a, b});
    GcodeDoomed(b, {a, b});
  }

  /** The test's other entries, `c.gcode` and the directory `d`, are doomed. */
  lemma TestOthersDoomed(a: string, b: string, c: string, d: string)
    requires PlainHash(c) && PlainHash(d)
    requires c != a && c != b && d != a && d != b
    ensures Doomed(Gcode(c), {a, b}) && Doomed(d, {a, b})
  {
    GcodeDoomed(c, {a, b});
    NoDotNoExtension(d);
  }

  /** Adding an entry adds it to the condemned set exactly when it is doomed. */
  lemma CondemnedInsert(entries: Entries, keep: set<string>, n: string, k: Kind)
    ensures Condemned(entries[n := k], keep)
         == Condemned(entries, keep) - {n} + (if Doomed(n, keep) then {n} else {})
  {
  }

  lemma TestCondemned(a: string, b: string, c: string, d: string)
    requires PlainHash(a) && PlainHash(b) && PlainHash(c) && PlainHash(d)
    requires c != a && c != b && d != a && d != b
    ensures Condemned(TestEntries(a, b, c, d), {a, b}) == {Gcode(c), d}
  {
    var keep: set<string> := {a, b};
    TestKeptNotDoomed(a, b);
    TestOthersDoomed(a, b, c, d);
    var m0: Entries := map[];
    var m1 := m0[Gcode(a) := File];
    var m2 := m1[Gcode(b) := File];
    var m3 := m2[Gcode(c) := File];
    var m4 := m3[d := Dir];
    assert m4 == TestEntries(a, b, c, d);
    assert Condemned(m0, keep) == {};
    CondemnedInsert(m0, keep, Gcode(a), File);
    CondemnedInsert(m1, keep, Gcode(b), File);
    CondemnedInsert(m2, keep, Gcode(c), File);
    CondemnedInsert(m3, keep, d, Dir);
  }

  /** Whatever order `os.listdir` returns, the pass deletes exactly `c.gcode`
      and the directory `d`, keeps `a.gcode` and `b.gcode`, and returns 2. */
  lemma CleanupWithFilesFor(a: string, b: string, c: string, d: string, addr: string, other: string, listing: seq<string>)
    requires PlainHash(a) && PlainHash(b) && PlainHash(c) && PlainHash(d)
    requires a != b && c != a && c != b && d != a && d != b && c != d
    requires addr != other
    requires IsListing(listing, TestEntries(a, b, c, d))
    ensures CleanupFileshare(Present(TestEntries(a, b, c, d)), listing, TestQueues(a, b, c, d, addr, other),
                             "archive", "default", Faults({}, {}))
         == Success(Report(Present(map[Gcode(a) := File, Gcode(b) := File]), 2))
  {
    var queues := TestQueues(a, b, c, d, addr, other);
    var keep := KeepHashes(queues, "archive", "default");
    TestKeepHashes(a, b, c, d, addr, other);
    TestCondemned(a, b, c, d);
    var entries := TestEntries(a, b, c, d);
    var none := Faults({}, {});
    var condemned: set<string> := {Gcode(c), d};
    TestSurvivors(a, b, c, d);
    assert Stuck(entries, keep, none) == {};
    assert Blocked(entries, keep, none) == {};
    assert Reclaims(entries, keep, none,
      CleanupFileshare(Present(entries), listing, queues, "archive", "default", none));
  }

  /** The two entries condemned are distinct, and removing them leaves the
      files of a and b. */
  lemma TestSurvivors(a: string, b: string, c: string, d: string)
    requires PlainHash(a) && PlainHash(b) && PlainHash(c) && PlainHash(d)
    requires a != b && c != a && c != b && c != d
    ensures |{Gcode(c), d}| == 2
    ensures TestEntries(a, b, c, d) - ({Gcode(c), d} - {}) == map[Gcode(a) := File, Gcode(b) := File]
  {
    var entries := TestEntries(a, b, c, d);
    var condemned: set<string> := {Gcode(c), d};
    assert Gcode(c)[|c|] == '.';
    assert Gcode(c) != d;
    if Gcode(c) == Gcode(a) { GcodeInjective(c, a); }
    if Gcode(c) == Gcode(b) { GcodeInjective(c, b); }
    assert Gcode(a)[|a|] == '.' && Gcode(b)[|b|] == '.';
    assert Gcode(a) != d && Gcode(b) != d;
    assert entries - (condemned - {}) == map[Gcode(a) := File, Gcode(b) := File];
  }

  /** The test with files, with its own names: whatever the listing order,
      `c.gcode` and `d` go, `a.gcode` and `b.gcode` stay, and the count is 2. */
  lemma CleanupWithFiles(listing: seq<string>)
    requires IsListing(listing, TestEntries("a", "b", "c", "d"))
    ensures CleanupFileshare(Present(TestEntries("a", "b", "c", "d")), listing,
                             TestQueues("a", "b", "c", "d", "q-addr", "peer2"),
                             "archive", "default", Faults({}, {}))
         == Success(Report(Present(map[Gcode("a") := File, Gcode("b") := File]), 2))
  {
    CleanupWithFilesFor("a", "b", "c", "d", "q-addr", "peer2", listing);
  }

  /** The test with no files: an existing, empty directory gives 0. */
  lemma CleanupNoFiles()
    ensures CleanupFileshare(Present(map[]), [], TestQueues("a", "b", "c", "d", "q-addr", "peer2"),
                             "archive", "default", Faults({}, {}))
         == Success(Report(Present(map[]), 0))
  {
    EmptyStoreDeletesNothing(TestQueues("a", "b", "c", "d", "q-addr", "peer2"), "archive", "default", Faults({}, {}));
  }
}
