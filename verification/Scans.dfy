/** Where repeated scans of the same partitions lead when mounts succeed and nobody else moves letters. */
module Scans {
  import opened Basics
  import opened Keys
  import opened Letters
  import opened Mounts
  import opened Reconciler
  import opened Convergence

  /** Every mount succeeds, and other processes hold the letters `foreign` throughout. */
  predicate Calm(env: seq<Attempt>, foreign: set<char>) {
    forall i :: 0 <= i < |env| ==> env[i] == Attempt(foreign, Succeeds)
  }

  lemma {:induction false} NoOfferNoChange(w: World, partitions: seq<Partition>, env: seq<Attempt>, foreign: set<char>)
    requires |partitions| == |env| && Calm(env, foreign) && Offer(w.table.mounts, foreign) == None
    ensures MountAll(w, partitions, env) == w
    decreases |partitions|
  {
    if partitions != [] {
      NoOfferNoChange(w, partitions[1..], env[1..], foreign);
    }
  }

  lemma {:induction false} AllKnownNoChange(w: World, partitions: seq<Partition>, env: seq<Attempt>)
    requires |partitions| == |env| && Current(partitions) <= w.known
    ensures MountAll(w, partitions, env) == w
    decreases |partitions|
  {
    if partitions != [] {
      assert partitions[0].Key() in Current(partitions);
      CurrentCons(partitions);
      AllKnownNoChange(w, partitions[1..], env[1..]);
    }
  }

  lemma CurrentCons(partitions: seq<Partition>)
    requires partitions != []
    ensures Current(partitions) == {partitions[0].Key()} + Current(partitions[1..])
  {
    forall k | k in Current(partitions)
      ensures k in {partitions[0].Key()} + Current(partitions[1..])
    {
      var i :| 0 <= i < |partitions| && partitions[i].Key() == k;
      if i > 0 {
        assert partitions[1..][i - 1].Key() == k;
      }
    }
    forall k | k in Current(partitions[1..])
      ensures k in Current(partitions)
    {
      var i :| 0 <= i < |partitions[1..]| && partitions[1..][i].Key() == k;
      assert partitions[i + 1].Key() == k;
    }
  }

  lemma PrefixCons(partitions: seq<Partition>, n: nat)
    requires n < |partitions|
    ensures Current(partitions[..n + 1]) == {partitions[0].Key()} + Current(partitions[1..][..n])
  {
    CurrentCons(partitions[..n + 1]);
    assert partitions[..n + 1][1..] == partitions[1..][..n];
  }

  lemma SumOfKeys(a: set<PartitionKey>, b: set<PartitionKey>, c: set<PartitionKey>)
    ensures a + b + c == a + (b + c)
    ensures b <= a ==> a + c == a + (b + c)
  {
  }

  /** The mounting loop takes a prefix of the list and stops for good when the letters run out. */
  lemma {:induction false} MountsAPrefix(w: World, partitions: seq<Partition>, env: seq<Attempt>, foreign: set<char>)
    returns (n: nat)
    requires |partitions| == |env| && Calm(env, foreign)
    ensures n <= |partitions|
    ensures MountAll(w, partitions, env).known == w.known + Current(partitions[..n])
    ensures n < |partitions| ==> Offer(MountAll(w, partitions, env).table.mounts, foreign) == None
    decreases |partitions|
  {
    if partitions == [] {
      n := 0;
    } else if partitions[0].Key() !in w.known && Offer(w.table.mounts, foreign) == None {
      NoOfferNoChange(w, partitions, env, foreign);
      n := 0;
    } else {
      var w1 := MountOne(w, partitions[0], env[0]);
      n := MountsAPrefix(w1, partitions[1..], env[1..], foreign);
      PrefixCons(partitions, n);
      SumOfKeys(w.known, {partitions[0].Key()}, Current(partitions[1..][..n]));
      n := n + 1;
    }
  }

  /** After the first scan only a suffix of the new partitions is unmounted, and only for lack of letters. */
  lemma FirstScanLeavesASuffix(w: World, partitions: seq<Partition>, env: seq<Attempt>, foreign: set<char>)
    returns (n: nat)
    requires |partitions| == |env| && Calm(env, foreign)
    ensures n <= |partitions|
    ensures var w1 := Reconcile(w, partitions, env);
            && Current(partitions[..n]) <= w1.known <= Current(partitions)
            && w1.known <= w.known + Current(partitions[..n])
    ensures n < |partitions| ==> Offer(MountAll(w, partitions, env).table.mounts, foreign) == None
  {
    n := MountsAPrefix(w, partitions, env, foreign);
    forall k | k in Current(partitions[..n])
      ensures k in Current(partitions)
    {
      var i :| 0 <= i < |partitions[..n]| && partitions[..n][i].Key() == k;
      assert partitions[i].Key() == k;
    }
  }

  /** With nothing to unmount, a scan is just its mounting loop. */
  lemma NothingGone(w: World, partitions: seq<Partition>, env: seq<Attempt>)
    requires |partitions| == |env| && MountAll(w, partitions, env).known <= Current(partitions)
    ensures Reconcile(w, partitions, env) == MountAll(w, partitions, env)
  {
    var mounted := MountAll(w, partitions, env);
    assert mounted.known - Current(partitions) == {};
    UnmountNone(mounted);
  }

  /** After the second scan everything is mounted or no letter is free. */
  lemma SecondScanConverges(w: World, partitions: seq<Partition>, env1: seq<Attempt>, env2: seq<Attempt>,
                            foreign: set<char>)
    requires |partitions| == |env1| == |env2| && Calm(env1, foreign) && Calm(env2, foreign)
    ensures var w2 := Reconcile(Reconcile(w, partitions, env1), partitions, env2);
            w2.known <= Current(partitions) &&
            (w2.known == Current(partitions) || Offer(w2.table.mounts, foreign) == None)
  {
    var w1 := Reconcile(w, partitions, env1);
    var m := FirstScanLeavesASuffix(w, partitions, env1, foreign);
    var n := MountsAPrefix(w1, partitions, env2, foreign);
    var _ := FirstScanLeavesASuffix(w1, partitions, env2, foreign);
    PrefixIsCurrent(partitions, n);
    NothingGone(w1, partitions, env2);
    if n == |partitions| {
      assert partitions[..n] == partitions;
    }
  }

  lemma PrefixIsCurrent(partitions: seq<Partition>, n: nat)
    requires n <= |partitions|
    ensures Current(partitions[..n]) <= Current(partitions)
  {
    forall k | k in Current(partitions[..n])
      ensures k in Current(partitions)
    {
      var i :| 0 <= i < |partitions[..n]| && partitions[..n][i].Key() == k;
      assert partitions[i].Key() == k;
    }
  }

  /** A third scan changes nothing, not even which handles are open. */
  lemma ThirdScanChangesNothing(w: World, partitions: seq<Partition>, env1: seq<Attempt>, env2: seq<Attempt>,
                                env3: seq<Attempt>, foreign: set<char>)
    requires |partitions| == |env1| == |env2| == |env3|
    requires Calm(env1, foreign) && Calm(env2, foreign) && Calm(env3, foreign)
    ensures var w2 := Reconcile(Reconcile(w, partitions, env1), partitions, env2);
            Reconcile(w2, partitions, env3) == w2
  {
    var w2 := Reconcile(Reconcile(w, partitions, env1), partitions, env2);
    SecondScanConverges(w, partitions, env1, env2, foreign);
    if w2.known == Current(partitions) {
      AllKnownNoChange(w2, partitions, env3);
    } else {
      NoOfferNoChange(w2, partitions, env3, foreign);
    }
    NothingGone(w2, partitions, env3);
  }

  // ---- Two scans can be needed ------------------------------------------------------------------

  lemma OfferNoneWhenAllTaken(mounts: map<string, MountedVolume>, foreign: set<char>)
    requires forall c :: IsLetter(c) ==> c in foreign || c in MountedLetters(mounts)
    ensures Offer(mounts, foreign) == None
  {
    NoneFreeMeansAllTaken(foreign + MountedLetters(mounts));
  }

  lemma OfferSomeWhenFree(mounts: map<string, MountedVolume>, foreign: set<char>, c: char)
    requires IsLetter(c) && c !in foreign && c !in MountedLetters(mounts)
    ensures Offer(mounts, foreign).Some?
  {
    NoneFreeMeansAllTaken(foreign + MountedLetters(mounts));
  }

  /** One volume, at letter D. */
  function OneMounted(gone: Partition): World {
    World(Table(map[KeyText(gone.Key()) := MountedVolume(gone, 'D', 0, 1)], {0, 1}, 3), {gone.Key()})
  }

  lemma FirstLetterIsD()
    ensures Offer(map[], {}) == Some('D')
  {
    NoneFreeMeansAllTaken({} + MountedLetters(map[]));
    FirstIsLeast({} + MountedLetters(map[]), First(), 'D');
    FreeAreExactlyUntaken({} + MountedLetters(map[]), First(), FreeFrom({} + MountedLetters(map[]), First())[0]);
  }

  /** The daemon gets there by its first scan. */
  lemma OneMountedIsReachable(gone: Partition) returns (scans: seq<Scan>)
    ensures ValidScans(scans) && AfterScans(InitialWorld(), scans) == OneMounted(gone)
  {
    var env := [Attempt({}, Succeeds)];
    scans := [Scan([gone], env)];
    FirstLetterIsD();
    FreshMount(InitialWorld().table, gone, 'D');
    assert MountOne(InitialWorld(), gone, env[0]) == OneMounted(gone);
    assert MountAll(InitialWorld(), [gone], env) == OneMounted(gone);
    OnlyAddedIsCurrent(gone);
    NothingGone(InitialWorld(), [gone], env);
  }

  /**
   Letters are freed only after the mounting loop: when the last free letter belongs to a volume that
   just went away, the first scan leaves a new partition unmounted although a letter is free at its end.
   */
  lemma OneScanIsNotEnough(gone: Partition, added: Partition)
    returns (scans: seq<Scan>, w: World, foreign: set<char>, env: seq<Attempt>)
    requires gone.Key() != added.Key()
    ensures ValidScans(scans) && w == AfterScans(InitialWorld(), scans) && |env| == 1 && Calm(env, foreign)
    ensures var w1 := Reconcile(w, [added], env); added.Key() !in w1.known && Offer(w1.table.mounts, foreign).Some?
  {
    scans := OneMountedIsReachable(gone);
    w, foreign := OneMounted(gone), LettersFrom(First()) - {'D'};
    env := [Attempt(foreign, Succeeds)];
    NothingOffered(gone);
    NoOfferNoChange(w, [added], env, foreign);
    OnlyAddedIsCurrent(added);
    LastVolumeGoes(gone);
    assert w.known - {added.Key()} == {gone.Key()};
    OfferSomeWhenFree(map[], foreign, 'D');
  }

  lemma NothingOffered(gone: Partition)
    ensures Offer(OneMounted(gone).table.mounts, LettersFrom(First()) - {'D'}) == None
  {
    var m := OneMounted(gone).table.mounts;
    LettersFromSpec(First());
    assert m[KeyText(gone.Key())].letter in MountedLetters(m);
    OfferNoneWhenAllTaken(m, LettersFrom(First()) - {'D'});
  }

  lemma OnlyAddedIsCurrent(p: Partition)
    ensures Current([p]) == {p.Key()}
  {
    assert [p][0].Key() == p.Key();
  }

  lemma LastVolumeGoes(gone: Partition)
    ensures UnmountAll(OneMounted(gone), {gone.Key()}).table.mounts == map[]
    ensures UnmountAll(OneMounted(gone), {gone.Key()}).known == {}
  {
    assert Texts({gone.Key()}) == {KeyText(gone.Key())};
  }
}
