/** The text keys of the mount table: "{disk}:{partition}" in decimal. */
module Keys {
  import opened Basics

  type PartitionKey = (u32, u32)

  function Digit(d: nat): char
    requires d < 10
  {
    ('0' as int + d) as char
  }

  function Decimal(n: nat): string {
    if n < 10 then [Digit(n)] else Decimal(n / 10) + [Digit(n % 10)]
  }

  function KeyText(k: PartitionKey): string {
    Decimal(k.0) + ":" + Decimal(k.1)
  }

  lemma {:induction false} DecimalIsInjective(a: nat, b: nat)
    requires Decimal(a) == Decimal(b)
    ensures a == b
    decreases a
  {
    DecimalNotEmpty(a / 10);
    DecimalNotEmpty(b / 10);
    if a >= 10 && b >= 10 {
      var da, db := Decimal(a), Decimal(b);
      assert da[..|da| - 1] == Decimal(a / 10) && db[..|db| - 1] == Decimal(b / 10);
      assert da[|da| - 1] == Digit(a % 10) && db[|db| - 1] == Digit(b % 10);
      DecimalIsInjective(a / 10, b / 10);
    }
  }

  lemma {:induction false} DecimalNotEmpty(n: nat)
    ensures |Decimal(n)| > 0
  {
  }

  lemma {:induction false} DecimalHasNoColon(n: nat)
    ensures ':' !in Decimal(n)
  {
    if n >= 10 {
      DecimalHasNoColon(n / 10);
    }
  }

  lemma FirstColon(a: string, b: string)
    requires ':' !in a
    ensures (a + ":" + b)[|a|] == ':' && forall i :: 0 <= i < |a| ==> (a + ":" + b)[i] != ':'
  {
  }

  lemma ColonSplitsOnce(a: string, b: string, c: string, d: string)
    requires ':' !in a && ':' !in c && a + ":" + b == c + ":" + d
    ensures a == c && b == d
  {
    FirstColon(a, b);
    FirstColon(c, d);
    var text := a + ":" + b;
    assert |a| == |c|;
    assert text[..|a|] == a && text[..|c|] == c;
    assert text[|a| + 1..] == b && text[|c| + 1..] == d;
  }

  /** Different partitions never share a mount table entry. */
  lemma KeyTextIsInjective(k: PartitionKey, l: PartitionKey)
    requires KeyText(k) == KeyText(l)
    ensures k == l
  {
    DecimalHasNoColon(k.0);
    DecimalHasNoColon(l.0);
    ColonSplitsOnce(Decimal(k.0), Decimal(k.1), Decimal(l.0), Decimal(l.1));
    DecimalIsInjective(k.0, l.0);
    DecimalIsInjective(k.1, l.1);
  }
}
