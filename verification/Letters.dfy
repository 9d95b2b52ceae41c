/** src/device_monitor.rs: the scan for free drive letters D to Z. */
module Letters {

  const LAST := 'Z' as int

  function First(): nat {
    'D' as int
  }

  predicate IsLetter(c: char) {
    'D' <= c <= 'Z'
  }

  /** The free letters from `code` on, in order. */
  function FreeFrom(taken: set<char>, code: nat): seq<char>
    decreases LAST + 1 - code
  {
    if code > LAST then []
    else (if code as char in taken then [] else [code as char]) + FreeFrom(taken, code + 1)
  }

  /** GetDriveTypeW answers 1 for exactly the letters that are not taken. */
  method FindAvailableDriveLetters(taken: set<char>) returns (available: seq<char>)
    ensures available == FreeFrom(taken, First())
  {
    available := [];
    for code := First() to LAST + 1
      invariant available + FreeFrom(taken, code) == FreeFrom(taken, First())
    {
      if code as char !in taken {
        available := available + [code as char];
      }
    }
  }

  lemma {:induction false} FreeAreExactlyUntaken(taken: set<char>, code: nat, c: char)
    ensures c in FreeFrom(taken, code) <==> code <= c as int <= LAST && c !in taken
    decreases LAST + 1 - code
  {
    if code <= LAST {
      FreeAreExactlyUntaken(taken, code + 1, c);
    }
  }

  /** The first free letter, which the reconciler takes, is the least one. */
  lemma {:induction false} FirstIsLeast(taken: set<char>, code: nat, c: char)
    requires FreeFrom(taken, code) != [] && code <= c as int <= LAST && c !in taken
    ensures FreeFrom(taken, code)[0] <= c
    decreases LAST + 1 - code
  {
    if code <= LAST && code as char in taken {
      FirstIsLeast(taken, code + 1, c);
    }
  }

  /** Each letter is reported once, in alphabetical order. */
  lemma {:induction false} FreeIsSorted(taken: set<char>, code: nat, i: nat, j: nat)
    requires i < j < |FreeFrom(taken, code)|
    ensures FreeFrom(taken, code)[i] < FreeFrom(taken, code)[j]
    decreases LAST + 1 - code
  {
    var rest := FreeFrom(taken, code + 1);
    if code as char in taken {
      FreeIsSorted(taken, code + 1, i, j);
    } else if i > 0 {
      FreeIsSorted(taken, code + 1, i - 1, j - 1);
    } else {
      FreeAreExactlyUntaken(taken, code + 1, rest[j - 1]);
    }
  }

  /** None is offered exactly when every letter is taken. */
  lemma NoneFreeMeansAllTaken(taken: set<char>)
    ensures FreeFrom(taken, First()) == [] <==> forall c :: IsLetter(c) ==> c in taken
  {
    var free := FreeFrom(taken, First());
    forall c | IsLetter(c) && c !in taken
      ensures free != []
    {
      FreeAreExactlyUntaken(taken, First(), c);
    }
    if free != [] {
      FreeAreExactlyUntaken(taken, First(), free[0]);
    }
  }

  function LettersFrom(code: nat): set<char>
    decreases LAST + 1 - code
  {
    if code > LAST then {} else {code as char} + LettersFrom(code + 1)
  }

  lemma {:induction false} LettersFromSpec(code: nat)
    requires code <= LAST + 1
    ensures forall c :: c in LettersFrom(code) <==> code <= c as int <= LAST
    ensures |LettersFrom(code)| == LAST + 1 - code
    decreases LAST + 1 - code
  {
    if code <= LAST {
      LettersFromSpec(code + 1);
    }
  }

  lemma {:induction false} SubsetIsSmaller<T>(a: set<T>, b: set<T>)
    requires a <= b
    ensures |a| <= |b|
  {
    if x :| x in a {
      SubsetIsSmaller(a - {x}, b - {x});
    }
  }

  /** There are 23 letters. */
  lemma AtMost23Letters(letters: set<char>)
    requires forall c :: c in letters ==> IsLetter(c)
    ensures |letters| <= 23
  {
    LettersFromSpec(First());
    SubsetIsSmaller(letters, LettersFrom(First()));
  }
}
