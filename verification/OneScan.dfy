/**
 When a single scan is enough (src/main.rs, scan_and_update): mounts succeed and other processes hold
 the letters `foreign` throughout.
 */
module OneScan {
  import opened Basics
  import opened Keys
  import opened Letters
  import opened Mounts
  import opened Reconciler
  import opened Convergence
  import opened Scans
  import opened Attempts

  /** The letters the reconciler can still hand out. */
  function Free(m: map<string, MountedVolume>, foreign: set<char>): set<char> {
    set c: char | IsLetter(c) && c !in foreign + MountedLetters(m)
  }

  lemma OfferIsSomeFree(m: map<string, MountedVolume>, foreign: set<char>)
    ensures Offer(m, foreign) == None <==> Free(m, foreign) == {}
    ensures Offer(m, foreign).Some? ==> Offer(m, foreign).value in Free(m, foreign)
  {
    var taken := foreign + MountedLetters(m);
    NoneFreeMeansAllTaken(taken);
    if Offer(m, foreign).Some? {
      FreeAreExactlyUntaken(taken, First(), Offer(m, foreign).value);
      assert Offer(m, foreign).value in Free(m, foreign);
    }
  }

  /** Mounting turns one free letter into one known partition. */
  lemma MountOneConserves(w: World, p: Partition, foreign: set<char>)
    requires Inv(w)
    ensures var w1 := MountOne(w, p, Attempt(foreign, Succeeds));
            |w1.known| + |Free(w1.table.mounts, foreign)| == |w.known| + |Free(w.table.mounts, foreign)|
  {
    var m, w1 := w.table.mounts, MountOne(w, p, Attempt(foreign, Succeeds));
    OfferIsSomeFree(m, foreign);
    if p.Key() !in w.known && Offer(m, foreign).Some? {
      var c := Offer(m, foreign).value;
      UnknownIsUnmounted(m, w.known, p.Key());
      FreshMount(w.table, p, c);
      MountTakesLetter(m, foreign, KeyText(p.Key()), MountedVolume(p, c, w.table.next, w.table.next + 1));
      assert w1.known == w.known + {p.Key()};
    }
  }

  lemma MountTakesLetter(m: map<string, MountedVolume>, foreign: set<char>, text: string, v: MountedVolume)
    requires text !in m && v.letter in Free(m, foreign)
    ensures |Free(m[text := v], foreign)| == |Free(m, foreign)| - 1
  {
    MountAddsLetter(m, text, v);
    assert Free(m[text := v], foreign) == Free(m, foreign) - {v.letter};
  }

  lemma MountAddsLetter(m: map<string, MountedVolume>, text: string, v: MountedVolume)
    requires text !in m
    ensures MountedLetters(m[text := v]) == MountedLetters(m) + {v.letter}
  {
    var m' := m[text := v];
    forall c | c in MountedLetters(m)
      ensures c in MountedLetters(m')
    {
      var t :| t in m && m[t].letter == c;
      assert m'[t].letter in MountedLetters(m');
    }
    assert m'[text].letter in MountedLetters(m');
  }

  lemma {:induction false} MountAllConserves(w: World, partitions: seq<Partition>, env: seq<Attempt>,
                                             foreign: set<char>)
    requires Inv(w) && |partitions| == |env| && Calm(env, foreign)
    ensures var w1 := MountAll(w, partitions, env);
            |w1.known| + |Free(w1.table.mounts, foreign)| == |w.known| + |Free(w.table.mounts, foreign)|
    decreases |partitions|
  {
    if partitions != [] {
      MountOneConserves(w, partitions[0], foreign);
      MountOneKeepsInv(w, partitions[0], env[0]);
      MountAllConserves(MountOne(w, partitions[0], env[0]), partitions[1..], env[1..], foreign);
    }
  }

  /** What is known after the mounting loop lies between what was known and that with all partitions scanned. */
  lemma MountAllIsBetween(w: World, partitions: seq<Partition>, env: seq<Attempt>, foreign: set<char>)
    requires |partitions| == |env| && Calm(env, foreign)
    ensures var w1 := MountAll(w, partitions, env);
            && w.known <= w1.known <= w.known + Current(partitions)
            && (w1.known == w.known + Current(partitions) || Offer(w1.table.mounts, foreign) == None)
  {
    var n := MountsAPrefix(w, partitions, env, foreign);
    PrefixIsCurrent(partitions, n);
    if n == |partitions| {
      assert partitions[..n] == partitions;
    }
  }

  lemma SizeOfUnion<T>(a: set<T>, b: set<T>)
    ensures |a + b| == |a| + |b - a|
  {
    assert a + b == a + (b - a);
  }

  lemma {:induction false} SameSizeIsEqual<T>(a: set<T>, b: set<T>)
    requires a <= b
    ensures a == b <==> |b| <= |a|
  {
    if x :| x in b && x !in a {
      SubsetIsSmaller(a, b - {x});
    }
  }

  /** The mounting loop mounts everything if and only if the new partitions do not outnumber the free letters. */
  lemma AllMountedIffEnoughLetters(w: World, partitions: seq<Partition>, env: seq<Attempt>, foreign: set<char>)
    requires Inv(w) && |partitions| == |env| && Calm(env, foreign)
    ensures MountAll(w, partitions, env).known == w.known + Current(partitions)
       <==> |Current(partitions) - w.known| <= |Free(w.table.mounts, foreign)|
  {
    var w1 := MountAll(w, partitions, env);
    MountAllConserves(w, partitions, env, foreign);
    MountAllIsBetween(w, partitions, env, foreign);
    SizeOfUnion(w.known, Current(partitions));
    SameSizeIsEqual(w1.known, w.known + Current(partitions));
    OfferIsSomeFree(w1.table.mounts, foreign);
  }

  // ---- One scan -----------------------------------------------------------------------------------

  /** Every scanned partition is mounted, or no letter is left to mount one: another scan has nothing to do. */
  predicate Converged(w: World, partitions: seq<Partition>, foreign: set<char>) {
    w.known == Current(partitions) || Offer(w.table.mounts, foreign) == None
  }

  /** What a caller can check before the scan. */
  predicate EnoughLetters(w: World, partitions: seq<Partition>, foreign: set<char>) {
    |Current(partitions) - w.known| <= |Free(w.table.mounts, foreign)|
  }

  /** Each volume that went away has a letter another process claims as well, so unmounting it frees none. */
  predicate NoLetterReturns(w: World, partitions: seq<Partition>, foreign: set<char>) {
    forall k :: k in w.known - Current(partitions) && KeyText(k) in w.table.mounts ==>
      w.table.mounts[KeyText(k)].letter in foreign
  }

  /** The letters still mounted are those of the partitions that stay. */
  lemma UnmountAllLetters(w: World, gone: set<PartitionKey>, c: char)
    requires Inv(w) && gone <= w.known
    ensures c in MountedLetters(UnmountAll(w, gone).table.mounts)
       <==> exists k :: k in w.known - gone && w.table.mounts[KeyText(k)].letter == c
  {
    var m, rest := w.table.mounts, UnmountAll(w, gone).table.mounts;
    if c in MountedLetters(rest) {
      var t :| t in rest && rest[t].letter == c;
      assert t == KeyText(m[t].partition.Key());
    }
    if k :| k in w.known - gone && m[KeyText(k)].letter == c {
      StaysMounted(w, gone, k);
      assert rest[KeyText(k)].letter == c;
    }
  }

  /** A letter that was taken is free after unmounting exactly when a volume that goes had it. */
  lemma FreedIff(w: World, gone: set<PartitionKey>, foreign: set<char>)
    requires Inv(w) && gone <= w.known && Free(w.table.mounts, foreign) == {}
    ensures Free(UnmountAll(w, gone).table.mounts, foreign) == {}
       <==> forall k :: k in gone ==> w.table.mounts[KeyText(k)].letter in foreign
  {
    var m, after := w.table.mounts, Free(UnmountAll(w, gone).table.mounts, foreign);
    forall k | k in gone && m[KeyText(k)].letter !in foreign
      ensures m[KeyText(k)].letter in after
    {
      var c := m[KeyText(k)].letter;
      UnmountAllLetters(w, gone, c);
      forall l | l in w.known - gone
        ensures m[KeyText(l)].letter != c
      {
        StaysMounted(w, gone, l);
      }
    }
    forall c | c in after
      ensures exists k :: k in gone && m[KeyText(k)].letter == c
    {
      assert c !in Free(m, foreign);
      var t :| t in m && m[t].letter == c;
      var k := m[t].partition.Key();
      UnmountAllLetters(w, gone, c);
      assert k in gone;
    }
  }

  lemma LettersComeBackIff(w: World, partitions: seq<Partition>, env: seq<Attempt>, foreign: set<char>)
    requires Inv(w) && |partitions| == |env| && Calm(env, foreign)
    requires Offer(MountAll(w, partitions, env).table.mounts, foreign) == None
    ensures Offer(Reconcile(w, partitions, env).table.mounts, foreign) == None
       <==> NoLetterReturns(w, partitions, foreign)
  {
    var w1 := MountAll(w, partitions, env);
    MountAllKeepsInv(w, partitions, env);
    MountAllIsBetween(w, partitions, env, foreign);
    var gone := w1.known - Current(partitions);
    assert gone == w.known - Current(partitions);
    OfferIsSomeFree(w1.table.mounts, foreign);
    OfferIsSomeFree(UnmountAll(w1, gone).table.mounts, foreign);
    FreedIff(w1, gone, foreign);
    forall k | k in gone
      ensures w1.table.mounts[KeyText(k)] == w.table.mounts[KeyText(k)]
    {
      MountAllKeepsMounts(w, partitions, env, k);
    }
  }

  /** Having converged means that another such scan changes nothing. */
  lemma ConvergedIffFixed(w: World, partitions: seq<Partition>, env: seq<Attempt>, foreign: set<char>)
    requires w.known <= Current(partitions) && |partitions| == |env| && Calm(env, foreign)
    ensures Converged(w, partitions, foreign) <==> Reconcile(w, partitions, env) == w
  {
    MountAllIsBetween(w, partitions, env, foreign);
    NothingGone(w, partitions, env);
    if w.known == Current(partitions) {
      AllKnownNoChange(w, partitions, env);
    } else if Offer(w.table.mounts, foreign) == None {
      NoOfferNoChange(w, partitions, env, foreign);
    }
  }

  /**
   One scan converges, so that a second one changes nothing, if and only if the new partitions do not
   outnumber the free letters or no letter comes back from the volumes that went away.
   */
  lemma OneScanIsEnoughIff(w: World, partitions: seq<Partition>, env: seq<Attempt>, foreign: set<char>)
    requires Inv(w) && |partitions| == |env| && Calm(env, foreign)
    ensures var w1 := Reconcile(w, partitions, env);
            && (Reconcile(w1, partitions, env) == w1 <==> Converged(w1, partitions, foreign))
            && (Converged(w1, partitions, foreign)
                <==> EnoughLetters(w, partitions, foreign) || NoLetterReturns(w, partitions, foreign))
  {
    var w1 := Reconcile(w, partitions, env);
    ReconcileKeepsInv(w, partitions, env);
    ConvergedIffFixed(w1, partitions, env, foreign);
    AllMountedIffEnoughLetters(w, partitions, env, foreign);
    MountAllIsBetween(w, partitions, env, foreign);
    if EnoughLetters(w, partitions, foreign) {
      assert w1.known == Current(partitions);
    } else {
      LettersComeBackIff(w, partitions, env, foreign);
      assert w1.known != Current(partitions);
    }
  }
}
