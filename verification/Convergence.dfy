/**
 What every run of the reconciler keeps, whatever fails: the known partitions are the mounted ones,
 letters are distinct, and exactly two handles are open per volume.
 */
module Convergence {
  import opened Keys
  import opened Letters
  import opened Mounts
  import opened Reconciler

  // ---- The invariant --------------------------------------------------------------------------

  /** known_partitions and the keys of the mount table are the same partitions. */
  ghost predicate KnownIsMounted(m: map<string, MountedVolume>, known: set<PartitionKey>) {
    && (forall k :: k in known ==> KeyText(k) in m && m[KeyText(k)].partition.Key() == k)
    && (forall t :: t in m ==> m[t].partition.Key() in known && t == KeyText(m[t].partition.Key()))
  }

  ghost predicate LettersDistinct(m: map<string, MountedVolume>) {
    && (forall t :: t in m ==> IsLetter(m[t].letter))
    && (forall t, u :: t in m && u in m && t != u ==> m[t].letter != m[u].letter)
  }

  /** Exactly the handles of mounted volumes are open. */
  ghost predicate HandlesExact(m: map<string, MountedVolume>, live: set<nat>) {
    live == AllHandles(m)
  }

  ghost predicate Numbered(live: set<nat>, next: nat) {
    forall h :: h in live ==> h < next
  }

  ghost predicate Inv(w: World) {
    && KnownIsMounted(w.table.mounts, w.known)
    && LettersDistinct(w.table.mounts)
    && OwnsHandles(w.table.mounts, w.table.live)
    && HandlesExact(w.table.mounts, w.table.live)
    && Numbered(w.table.live, w.table.next)
  }

  /** The letter offered is free among the mounted ones. */
  lemma OfferIsFree(m: map<string, MountedVolume>, foreign: set<char>)
    requires Offer(m, foreign).Some?
    ensures var c := Offer(m, foreign).value;
            IsLetter(c) && c !in foreign && forall t :: t in m ==> m[t].letter != c
  {
    var c := Offer(m, foreign).value;
    FreeAreExactlyUntaken(foreign + MountedLetters(m), First(), c);
    forall t | t in m
      ensures m[t].letter != c
    {
      assert m[t].letter in MountedLetters(m);
    }
  }

  lemma NewHandlesAreExact(m: map<string, MountedVolume>, live: set<nat>, text: string, v: MountedVolume)
    requires HandlesExact(m, live) && text !in m
    ensures HandlesExact(m[text := v], live + {v.disk, v.raw})
  {
    AllHandlesSplit(m[text := v], text);
    assert m[text := v] - {text} == m;
  }

  lemma NewVolumeIsKnown(m: map<string, MountedVolume>, known: set<PartitionKey>, p: Partition, v: MountedVolume)
    requires KnownIsMounted(m, known) && p.Key() !in known && v.partition == p
    ensures KnownIsMounted(m[KeyText(p.Key()) := v], known + {p.Key()})
  {
    forall k | k in known
      ensures KeyText(k) != KeyText(p.Key())
    {
      if KeyText(k) == KeyText(p.Key()) {
        KeyTextIsInjective(k, p.Key());
      }
    }
  }

  lemma UnknownIsUnmounted(m: map<string, MountedVolume>, known: set<PartitionKey>, k: PartitionKey)
    requires KnownIsMounted(m, known) && k !in known
    ensures KeyText(k) !in m
  {
    if KeyText(k) in m {
      KeyTextIsInjective(k, m[KeyText(k)].partition.Key());
    }
  }

  /** A successful mount under a key that is not in the table. */
  lemma FreshMount(t: Table, p: Partition, letter: char)
    requires KeyText(p.Key()) !in t.mounts
    ensures AfterMount(t, p, letter, Succeeds)
         == Table(t.mounts[KeyText(p.Key()) := MountedVolume(p, letter, t.next, t.next + 1)],
                  t.live + {t.next, t.next + 1}, t.next + 3)
  {
  }

  lemma NewLetterIsDistinct(m: map<string, MountedVolume>, text: string, v: MountedVolume)
    requires LettersDistinct(m) && IsLetter(v.letter) && forall u :: u in m ==> m[u].letter != v.letter
    ensures LettersDistinct(m[text := v])
  {
  }

  lemma SuccessKeepsInv(w: World, p: Partition, letter: char)
    requires Inv(w) && p.Key() !in w.known
    requires IsLetter(letter) && forall t :: t in w.table.mounts ==> w.table.mounts[t].letter != letter
    ensures Inv(World(AfterMount(w.table, p, letter, Succeeds), w.known + {p.Key()}))
  {
    var t, text, v := w.table, KeyText(p.Key()), MountedVolume(p, letter, w.table.next, w.table.next + 1);
    UnknownIsUnmounted(t.mounts, w.known, p.Key());
    FreshMount(t, p, letter);
    var m, known, live := t.mounts[text := v], w.known + {p.Key()}, t.live + {v.disk, v.raw};
    assert KnownIsMounted(m, known) by { NewVolumeIsKnown(t.mounts, w.known, p, v); }
    assert LettersDistinct(m) by { NewLetterIsDistinct(t.mounts, text, v); }
    assert OwnsHandles(m, live) by { OwnsAfterInsert(t.mounts, t.live, text, v); }
    assert HandlesExact(m, live) by { NewHandlesAreExact(t.mounts, t.live, text, v); }
    var w' := World(AfterMount(t, p, letter, Succeeds), known);
    assert w'.table == Table(m, live, t.next + 3);
    InvFromParts(w');
  }

  lemma InvFromParts(w: World)
    requires KnownIsMounted(w.table.mounts, w.known) && LettersDistinct(w.table.mounts)
    requires OwnsHandles(w.table.mounts, w.table.live) && HandlesExact(w.table.mounts, w.table.live)
    requires Numbered(w.table.live, w.table.next)
    ensures Inv(w)
  {
  }

  lemma MountOneKeepsInv(w: World, p: Partition, a: Attempt)
    requires Inv(w)
    ensures Inv(MountOne(w, p, a))
  {
    if p.Key() !in w.known && Offer(w.table.mounts, a.foreign).Some? {
      OfferIsFree(w.table.mounts, a.foreign);
      if a.outcome.Succeeds? {
        SuccessKeepsInv(w, p, Offer(w.table.mounts, a.foreign).value);
      }
    }
  }

  lemma {:induction false} MountAllKeepsInv(w: World, partitions: seq<Partition>, env: seq<Attempt>)
    requires Inv(w) && |partitions| == |env|
    ensures Inv(MountAll(w, partitions, env))
    decreases |partitions|
  {
    if partitions != [] {
      MountOneKeepsInv(w, partitions[0], env[0]);
      MountAllKeepsInv(MountOne(w, partitions[0], env[0]), partitions[1..], env[1..]);
    }
  }

  lemma GoneIsUnknown(m: map<string, MountedVolume>, known: set<PartitionKey>, k: PartitionKey)
    requires KnownIsMounted(m, known) && k in known
    ensures KnownIsMounted(m - {KeyText(k)}, known - {k})
  {
    forall l | l in known - {k}
      ensures KeyText(l) != KeyText(k)
    {
      if KeyText(l) == KeyText(k) {
        KeyTextIsInjective(l, k);
      }
    }
  }

  lemma RemainingHandlesAreExact(m: map<string, MountedVolume>, live: set<nat>, text: string)
    requires HandlesExact(m, live) && OwnsHandles(m, live) && text in m
    ensures HandlesExact(m - {text}, live - HandlesOf(m, text))
  {
    RestIsOther(m, live, text);
    AllHandlesSplit(m, text);
  }

  lemma RemainingLettersAreDistinct(m: map<string, MountedVolume>, text: string)
    requires LettersDistinct(m)
    ensures LettersDistinct(m - {text})
  {
  }

  lemma UnmountOneKeepsInv(w: World, k: PartitionKey)
    requires Inv(w) && k in w.known
    ensures Inv(World(AfterUnmount(w.table, k), w.known - {k}))
  {
    var m, live := w.table.mounts, w.table.live;
    GoneIsUnknown(m, w.known, k);
    RemainingLettersAreDistinct(m, KeyText(k));
    OwnsAfterRemove(m, live, KeyText(k));
    RemainingHandlesAreExact(m, live, KeyText(k));
  }

  lemma RestIsOther(mounts: map<string, MountedVolume>, live: set<nat>, text: string)
    requires OwnsHandles(mounts, live) && text in mounts
    ensures AllHandles(mounts - {text}) !! HandlesOf(mounts, text)
  {
    var rest := mounts - {text};
    forall h | h in AllHandles(rest)
      ensures h !in HandlesOf(mounts, text)
    {
      AllHandlesSpec(rest, h);
      var u :| u in rest && h in HandlesOf(rest, u);
      assert h in HandlesOf(mounts, u) && HandlesOf(mounts, u) !! HandlesOf(mounts, text);
    }
  }

  lemma UnmountNone(w: World)
    ensures UnmountAll(w, {}) == w
  {
  }

  lemma UnmountOneMoreKeepsInv(w: World, gone: set<PartitionKey>, k: PartitionKey)
    requires k in gone && gone <= w.known && Inv(UnmountAll(w, gone - {k}))
    ensures Inv(UnmountAll(w, gone))
  {
    var less := UnmountAll(w, gone - {k});
    assert k in less.known;
    UnmountOneKeepsInv(less, k);
    UnmountOneMore(w, gone - {k}, k);
    assert gone - {k} + {k} == gone;
  }

  lemma {:induction false} UnmountAllKeepsInv(w: World, gone: set<PartitionKey>)
    requires Inv(w) && gone <= w.known
    ensures Inv(UnmountAll(w, gone))
    decreases gone
  {
    if gone == {} {
      UnmountNone(w);
    } else {
      var k :| k in gone;
      UnmountAllKeepsInv(w, gone - {k});
      UnmountOneMoreKeepsInv(w, gone, k);
    }
  }

  /** One scan keeps the invariant, whatever fails, and leaves only scanned partitions mounted. */
  lemma ReconcileKeepsInv(w: World, partitions: seq<Partition>, env: seq<Attempt>)
    requires Inv(w) && |partitions| == |env|
    ensures Inv(Reconcile(w, partitions, env))
    ensures Reconcile(w, partitions, env).known <= Current(partitions)
  {
    MountAllKeepsInv(w, partitions, env);
    var mounted := MountAll(w, partitions, env);
    UnmountAllKeepsInv(mounted, mounted.known - Current(partitions));
  }

  /** A run: any number of scans with any results. */
  datatype Scan = Scan(partitions: seq<Partition>, env: seq<Attempt>)

  predicate ValidScans(scans: seq<Scan>) {
    forall i :: 0 <= i < |scans| ==> |scans[i].partitions| == |scans[i].env|
  }

  function AfterScans(w: World, scans: seq<Scan>): World
    requires ValidScans(scans)
    decreases |scans|
  {
    if scans == [] then w
    else AfterScans(Reconcile(w, scans[0].partitions, scans[0].env), scans[1..])
  }

  function InitialWorld(): World {
    World(Table(map[], {}, 0), {})
  }

  /** Every reachable state: known is mounted, at most 23 distinct letters, exactly two handles per volume. */
  lemma EveryRunKeepsInv(scans: seq<Scan>)
    requires ValidScans(scans)
    ensures var w := AfterScans(InitialWorld(), scans);
            && Inv(w)
            && |w.table.mounts| == |MountedLetters(w.table.mounts)| <= 23
            && |w.table.live| == 2 * |w.table.mounts|
  {
    RunKeepsInv(InitialWorld(), scans);
    var w := AfterScans(InitialWorld(), scans);
    CountLetters(w.table.mounts);
    CountHandles(w.table.mounts, w.table.live);
  }

  lemma {:induction false} RunKeepsInv(w: World, scans: seq<Scan>)
    requires Inv(w) && ValidScans(scans)
    ensures Inv(AfterScans(w, scans))
    decreases |scans|
  {
    if scans != [] {
      ReconcileKeepsInv(w, scans[0].partitions, scans[0].env);
      RunKeepsInv(Reconcile(w, scans[0].partitions, scans[0].env), scans[1..]);
    }
  }

  lemma {:induction false} CountLetters(m: map<string, MountedVolume>)
    requires LettersDistinct(m)
    ensures |MountedLetters(m)| == |m| <= 23
    decreases |m|
  {
    AtMost23Letters(MountedLetters(m));
    if t :| t in m {
      var rest := m - {t};
      CountLetters(rest);
      assert m[t].letter !in MountedLetters(rest);
      assert MountedLetters(m) == MountedLetters(rest) + {m[t].letter} by {
        forall c | c in MountedLetters(m)
          ensures c in MountedLetters(rest) + {m[t].letter}
        {
          var u :| u in m && m[u].letter == c;
          if u != t {
            assert rest[u].letter in MountedLetters(rest);
          }
        }
      }
    }
  }

  lemma {:induction false} CountHandles(m: map<string, MountedVolume>, live: set<nat>)
    requires OwnsHandles(m, live)
    ensures |AllHandles(m)| == 2 * |m|
    decreases |m|
  {
    if t :| t in m {
      AllHandlesSplit(m, t);
      RestIsOther(m, live, t);
      OwnsAfterRemove(m, live, t);
      CountHandles(m - {t}, live - HandlesOf(m, t));
      assert HandlesOf(m, t) == {m[t].disk} + {m[t].raw};
    } else {
      assert m == map[];
      assert AllHandles(m) == {};
    }
  }
}
