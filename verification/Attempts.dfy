/**
 What one scan makes of each partition, whatever the other mounts do (src/main.rs, scan_and_update): a
 mount that fails costs nobody else anything.
 */
module Attempts {
  import opened Basics
  import opened Keys
  import opened Letters
  import opened Mounts
  import opened Reconciler
  import opened Convergence

  lemma {:induction false} MountAllAppend(w: World, a: seq<Partition>, envA: seq<Attempt>, b: seq<Partition>,
                                          envB: seq<Attempt>)
    requires |a| == |envA| && |b| == |envB|
    ensures MountAll(w, a + b, envA + envB) == MountAll(MountAll(w, a, envA), b, envB)
    decreases |a|
  {
    if a == [] {
      assert a + b == b && envA + envB == envB;
    } else {
      assert (a + b)[0] == a[0] && (a + b)[1..] == a[1..] + b;
      assert (envA + envB)[0] == envA[0] && (envA + envB)[1..] == envA[1..] + envB;
      MountAllAppend(MountOne(w, a[0], envA[0]), a[1..], envA[1..], b, envB);
    }
  }

  /** The state in which the loop comes to partition i. */
  function Before(w: World, partitions: seq<Partition>, env: seq<Attempt>, i: nat): World
    requires i <= |partitions| == |env|
  {
    MountAll(w, partitions[..i], env[..i])
  }

  lemma BeforeRest(w: World, partitions: seq<Partition>, env: seq<Attempt>, i: nat)
    requires 0 < i <= |partitions| == |env|
    ensures Before(w, partitions, env, i)
         == Before(MountOne(w, partitions[0], env[0]), partitions[1..], env[1..], i - 1)
  {
    assert partitions[..i][1..] == partitions[1..][..i - 1] && env[..i][1..] == env[1..][..i - 1];
  }

  /** When the loop comes to partition i, a letter is free and the attempt would succeed. */
  predicate CanMountAt(w: World, partitions: seq<Partition>, env: seq<Attempt>, i: nat)
    requires |partitions| == |env|
  {
    i < |partitions| && env[i].outcome == Succeeds &&
    Offer(Before(w, partitions, env, i).table.mounts, env[i].foreign).Some?
  }

  ghost predicate CanMount(w: World, partitions: seq<Partition>, env: seq<Attempt>, k: PartitionKey)
    requires |partitions| == |env|
  {
    exists i: nat :: CanMountAt(w, partitions, env, i) && partitions[i].Key() == k
  }

  lemma CanMountRest(w: World, partitions: seq<Partition>, env: seq<Attempt>, i: nat)
    requires 0 < i && partitions != [] && |partitions| == |env|
    ensures CanMountAt(w, partitions, env, i)
       <==> CanMountAt(MountOne(w, partitions[0], env[0]), partitions[1..], env[1..], i - 1)
  {
    if i < |partitions| {
      BeforeRest(w, partitions, env, i);
    }
  }

  /**
   Whatever fails: after the mounting loop a partition is known if and only if it was before, or at one
   of its places in the list a letter was free and its own attempt succeeds.
   */
  lemma {:induction false} KnownIffCanMount(w: World, partitions: seq<Partition>, env: seq<Attempt>, k: PartitionKey)
    requires |partitions| == |env|
    ensures k in MountAll(w, partitions, env).known <==> k in w.known || CanMount(w, partitions, env, k)
    decreases |partitions|
  {
    if partitions != [] {
      var w1, rest, envRest := MountOne(w, partitions[0], env[0]), partitions[1..], env[1..];
      KnownIffCanMount(w1, rest, envRest, k);
      assert Before(w, partitions, env, 0) == w;
      assert k in w1.known <==> k in w.known || (CanMountAt(w, partitions, env, 0) && partitions[0].Key() == k);
      if i: nat :| CanMountAt(w, partitions, env, i) && partitions[i].Key() == k && i > 0 {
        CanMountRest(w, partitions, env, i);
        assert rest[i - 1] == partitions[i];
      }
      if i: nat :| CanMountAt(w1, rest, envRest, i) && rest[i].Key() == k {
        CanMountRest(w, partitions, env, i + 1);
        assert rest[i] == partitions[i + 1];
      }
    }
  }

  /** And after the whole scan exactly those of them that were scanned. */
  lemma ScanKnowsIff(w: World, partitions: seq<Partition>, env: seq<Attempt>, k: PartitionKey)
    requires |partitions| == |env|
    ensures k in Reconcile(w, partitions, env).known
       <==> k in Current(partitions) && (k in w.known || CanMount(w, partitions, env, k))
  {
    KnownIffCanMount(w, partitions, env, k);
  }

  // ---- The volumes themselves ---------------------------------------------------------------------------

  /** The letter offered is the least one that is neither mounted nor taken by others, if there is one. */
  lemma OfferIsLeast(m: map<string, MountedVolume>, foreign: set<char>, c: char)
    requires IsLetter(c) && c !in foreign && forall t :: t in m ==> m[t].letter != c
    ensures Offer(m, foreign).Some? && Offer(m, foreign).value <= c
  {
    NoneFreeMeansAllTaken(foreign + MountedLetters(m));
    FirstIsLeast(foreign + MountedLetters(m), First(), c);
  }

  /** A known partition keeps its volume. */
  lemma MountOneKeepsMounts(w: World, p: Partition, a: Attempt, k: PartitionKey)
    requires Inv(w) && k in w.known
    ensures var w1 := MountOne(w, p, a);
            k in w1.known && KeyText(k) in w1.table.mounts && w1.table.mounts[KeyText(k)] == w.table.mounts[KeyText(k)]
  {
    if p.Key() !in w.known && Offer(w.table.mounts, a.foreign).Some? && a.outcome.Succeeds? {
      UnknownIsUnmounted(w.table.mounts, w.known, p.Key());
      FreshMount(w.table, p, Offer(w.table.mounts, a.foreign).value);
    }
  }

  lemma {:induction false} MountAllKeepsMounts(w: World, partitions: seq<Partition>, env: seq<Attempt>,
                                               k: PartitionKey)
    requires Inv(w) && |partitions| == |env| && k in w.known
    ensures var w1 := MountAll(w, partitions, env);
            k in w1.known && KeyText(k) in w1.table.mounts && w1.table.mounts[KeyText(k)] == w.table.mounts[KeyText(k)]
    decreases |partitions|
  {
    if partitions != [] {
      MountOneKeepsInv(w, partitions[0], env[0]);
      MountOneKeepsMounts(w, partitions[0], env[0], k);
      MountAllKeepsMounts(MountOne(w, partitions[0], env[0]), partitions[1..], env[1..], k);
    }
  }

  lemma StaysMounted(w: World, gone: set<PartitionKey>, k: PartitionKey)
    requires Inv(w) && gone <= w.known && k in w.known - gone
    ensures var m := UnmountAll(w, gone).table.mounts;
            KeyText(k) in m && m[KeyText(k)] == w.table.mounts[KeyText(k)]
  {
    forall l | l in gone
      ensures KeyText(l) != KeyText(k)
    {
      if KeyText(l) == KeyText(k) {
        KeyTextIsInjective(k, l);
      }
    }
  }

  /** A partition that was mounted and is scanned again keeps its volume: letter, handles and all. */
  lemma SurvivorsKeepTheirVolume(w: World, partitions: seq<Partition>, env: seq<Attempt>, k: PartitionKey)
    requires Inv(w) && |partitions| == |env| && k in w.known && k in Current(partitions)
    ensures var m := Reconcile(w, partitions, env).table.mounts;
            KeyText(k) in m && m[KeyText(k)] == w.table.mounts[KeyText(k)]
  {
    var w1 := MountAll(w, partitions, env);
    MountAllKeepsInv(w, partitions, env);
    MountAllKeepsMounts(w, partitions, env, k);
    StaysMounted(w1, w1.known - Current(partitions), k);
  }

  /**
   A new partition that can be mounted first at place i is mounted as that entry of the list says, at the
   letter offered then, and stays so to the end of the scan.
   */
  lemma NewVolumeIsAsScanned(w: World, partitions: seq<Partition>, env: seq<Attempt>, i: nat)
    requires Inv(w) && |partitions| == |env| && CanMountAt(w, partitions, env, i)
    requires partitions[i].Key() !in Before(w, partitions, env, i).known
    ensures var m, text := Reconcile(w, partitions, env).table.mounts, KeyText(partitions[i].Key());
            && text in m && m[text].partition == partitions[i]
            && Some(m[text].letter) == Offer(Before(w, partitions, env, i).table.mounts, env[i].foreign)
  {
    var before, p, k := Before(w, partitions, env, i), partitions[i], partitions[i].Key();
    MountAllKeepsInv(w, partitions[..i], env[..i]);
    UnknownIsUnmounted(before.table.mounts, before.known, k);
    FreshMount(before.table, p, Offer(before.table.mounts, env[i].foreign).value);
    var with := MountOne(before, p, env[i]);
    MountOneKeepsInv(before, p, env[i]);
    MountAllKeepsMounts(with, partitions[i + 1..], env[i + 1..], k);
    SplitAt(w, partitions, env, i);
    var w1 := MountAll(w, partitions, env);
    MountAllKeepsInv(w, partitions, env);
    assert partitions[i].Key() in Current(partitions);
    StaysMounted(w1, w1.known - Current(partitions), k);
  }

  lemma SplitAt(w: World, partitions: seq<Partition>, env: seq<Attempt>, i: nat)
    requires i < |partitions| == |env|
    ensures MountAll(w, partitions, env)
         == MountAll(MountOne(Before(w, partitions, env, i), partitions[i], env[i]), partitions[i + 1..], env[i + 1..])
  {
    assert partitions == partitions[..i] + partitions[i..] && env == env[..i] + env[i..];
    MountAllAppend(w, partitions[..i], env[..i], partitions[i..], env[i..]);
    assert partitions[i..][1..] == partitions[i + 1..] && env[i..][1..] == env[i + 1..];
  }

  // ---- Failures do not matter -----------------------------------------------------------------------------

  /** The list without the attempts that fail. */
  function Succeeding(partitions: seq<Partition>, env: seq<Attempt>): seq<Partition>
    requires |partitions| == |env|
  {
    if partitions == [] then []
    else (if env[0].outcome == Succeeds then [partitions[0]] else []) + Succeeding(partitions[1..], env[1..])
  }

  function Successes(env: seq<Attempt>): seq<Attempt> {
    if env == [] then []
    else (if env[0].outcome == Succeeds then [env[0]] else []) + Successes(env[1..])
  }

  lemma {:induction false} SameLength(partitions: seq<Partition>, env: seq<Attempt>)
    requires |partitions| == |env|
    ensures |Succeeding(partitions, env)| == |Successes(env)|
    decreases |partitions|
  {
    if partitions != [] {
      SameLength(partitions[1..], env[1..]);
    }
  }

  /** Known partitions and mounted volumes with their letters agree; handle numbers may differ. */
  ghost predicate Alike(v: World, w: World) {
    && v.known == w.known && v.table.mounts.Keys == w.table.mounts.Keys
    && forall t :: t in v.table.mounts ==> v.table.mounts[t].partition == w.table.mounts[t].partition
                                           && v.table.mounts[t].letter == w.table.mounts[t].letter
  }

  lemma AlikeOffers(v: World, w: World, foreign: set<char>)
    requires Alike(v, w)
    ensures Offer(v.table.mounts, foreign) == Offer(w.table.mounts, foreign)
  {
    assert MountedLetters(v.table.mounts) == MountedLetters(w.table.mounts);
  }

  lemma AlikeMounts(v: World, w: World, p: Partition, a: Attempt)
    requires Alike(v, w)
    ensures Alike(MountOne(v, p, a), MountOne(w, p, a))
    ensures a.outcome != Succeeds ==> Alike(MountOne(v, p, a), w)
  {
    AlikeOffers(v, w, a.foreign);
  }

  /** Leaving out every attempt that fails changes neither what is mounted nor at which letters. */
  lemma {:induction false} FailuresDoNotMatter(v: World, w: World, partitions: seq<Partition>, env: seq<Attempt>)
    requires |partitions| == |env| && Alike(v, w)
    ensures |Succeeding(partitions, env)| == |Successes(env)|
    ensures Alike(MountAll(v, partitions, env), MountAll(w, Succeeding(partitions, env), Successes(env)))
    decreases |partitions|
  {
    SameLength(partitions, env);
    if partitions != [] {
      SameLength(partitions[1..], env[1..]);
      AlikeMounts(v, w, partitions[0], env[0]);
      var v1 := MountOne(v, partitions[0], env[0]);
      if env[0].outcome == Succeeds {
        FailuresDoNotMatter(v1, MountOne(w, partitions[0], env[0]), partitions[1..], env[1..]);
        assert Succeeding(partitions, env)[1..] == Succeeding(partitions[1..], env[1..]);
        assert Successes(env)[1..] == Successes(env[1..]);
      } else {
        FailuresDoNotMatter(v1, w, partitions[1..], env[1..]);
        assert Succeeding(partitions, env) == Succeeding(partitions[1..], env[1..]);
        assert Successes(env) == Successes(env[1..]);
      }
    }
  }
}
