/** The process-wide source of transaction ids (cheshire/strestpackets.go). */
module TxnIds {
  import opened Integers
  import opened Decimal

  /** The counter after n more increments. */
  function Counter(start: int64, n: nat): int64 {
    Wrap64(start + n)
  }

  /** Two ids are different unless a whole turn of the 64-bit counter lies between them; in particular
      the counter's wrap to negative numbers repeats nothing. */
  lemma IdsRepeatOnlyAfterFullTurn(start: int64, i: nat, j: nat)
    requires i < j
    ensures Format(Counter(start, i)) == Format(Counter(start, j)) <==> (j - i) % TWO_TO_THE_64 == 0
  {
    var ki := Wrap64Differs(start + i);
    var kj := Wrap64Differs(start + j);
    if Format(Counter(start, i)) == Format(Counter(start, j)) {
      FormatInjective(Counter(start, i), Counter(start, j));
      assert j - i == 0 + (kj - ki) * TWO_TO_THE_64;
      ModShift(0, kj - ki);
    } else if (j - i) % TWO_TO_THE_64 == 0 {
      var k := (j - i) / TWO_TO_THE_64;
      assert start + j == (start + i) + k * TWO_TO_THE_64;
      ModShift(start + i, k);
    }
  }

  lemma NewIdIsNew(start: int64, i: nat, n: nat)
    requires i < n < TWO_TO_THE_64
    ensures Format(Counter(start, i + 1)) != Format(Counter(start, n + 1))
  {
    SmallMod(n - i);
    IdsRepeatOnlyAfterFullTurn(start, i + 1, n + 1);
  }

  lemma SmallMod(x: nat)
    requires x < TWO_TO_THE_64
    ensures x % TWO_TO_THE_64 == x
  {
  }

  lemma NextCounter(start: int64, n: nat)
    ensures Wrap64(Counter(start, n) + 1) == Counter(start, n + 1)
  {
    Wrap64Add(start + n, 1);
  }

  class TxnIdSource {
    var strestId: int64
    ghost const start: int64
    ghost var issued: seq<string>

    ghost predicate Valid()
      reads this
    {
      && strestId == Counter(start, |issued|)
      && forall i :: 0 <= i < |issued| ==> issued[i] == Format(Counter(start, i + 1))
    }

    constructor ()
      ensures Valid() && issued == [] && strestId == 0
    {
      strestId, start, issued := 0, 0, [];
    }

    /** A new id; among the first 2^64 none is issued twice. */
    method NewTxnId() returns (id: string)
      requires Valid()
      modifies this
      ensures Valid() && issued == old(issued) + [id]
      ensures strestId == Wrap64(old(strestId) + 1) && id == Format(strestId)
      ensures |issued| <= TWO_TO_THE_64 ==> id !in old(issued)
      ensures id != ""
    {
      hide Wrap64;
      NextCounter(start, |issued|);
      strestId := Wrap64(strestId + 1);
      id := Format(strestId);
      FormatShape(strestId);
      forall i | 0 <= i < |issued| && |issued| < TWO_TO_THE_64 ensures issued[i] != id {
        NewIdIsNew(start, i, |issued|);
      }
      issued := issued + [id];
    }
  }
}
