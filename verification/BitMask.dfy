/** A 32-bit client mask read as the set of the client ids whose bit is set. */
module BitMask {
  import opened Prelude

  type ClientId = bv5

  const ALL_IDS: set<ClientId> := {
    0, 1, 2, 3, 4, 5, 6, 7, 8, 9, 10, 11, 12, 13, 14, 15,
    16, 17, 18, 19, 20, 21, 22, 23, 24, 25, 26, 27, 28, 29, 30, 31
  }

  predicate Bit(m: bv32, id: ClientId) {
    (m >> id) & 1 == 1
  }

  function SetBit(m: bv32, id: ClientId): bv32 {
    m | (1 << id)
  }

  function ClearBit(m: bv32, id: ClientId): bv32 {
    m & !(1 << id)
  }

  ghost function Ids(m: bv32): (s: set<ClientId>)
    ensures forall id: ClientId :: id in s <==> Bit(m, id)
  {
    assert forall id: ClientId :: id in ALL_IDS;
    set id: ClientId | id in ALL_IDS && Bit(m, id)
  }

  lemma SetOneBit(m: bv32, i: ClientId, j: ClientId)
    ensures Bit(SetBit(m, i), j) <==> i == j || Bit(m, j)
  {
  }

  lemma ClearOneBit(m: bv32, i: ClientId, j: ClientId)
    ensures Bit(ClearBit(m, i), j) <==> i != j && Bit(m, j)
  {
  }

  lemma IdsOfSetBit(m: bv32, i: ClientId)
    ensures Ids(SetBit(m, i)) == Ids(m) + {i}
  {
    var m' := SetBit(m, i);
    forall j: ClientId ensures Bit(m', j) <==> i == j || Bit(m, j) {
      SetOneBit(m, i, j);
    }
  }

  lemma IdsOfClearBit(m: bv32, i: ClientId)
    ensures Ids(ClearBit(m, i)) == Ids(m) - {i}
  {
    var m' := ClearBit(m, i);
    forall j: ClientId ensures Bit(m', j) <==> i != j && Bit(m, j) {
      ClearOneBit(m, i, j);
    }
  }

  lemma NoIdsMeansZero(m: bv32)
    ensures Ids(m) == {} <==> m == 0
  {
    if Ids(m) == {} {
      AllBitsOff(m);
    } else {
      var i :| i in Ids(m);
    }
  }

  lemma AllBitsOff(m: bv32)
    requires forall id: ClientId :: !Bit(m, id)
    ensures m == 0
  {
    assert !Bit(m, 0) && !Bit(m, 1) && !Bit(m, 2) && !Bit(m, 3) && !Bit(m, 4) && !Bit(m, 5) && !Bit(m, 6) && !Bit(m, 7);
    assert !Bit(m, 8) && !Bit(m, 9) && !Bit(m, 10) && !Bit(m, 11);
    assert !Bit(m, 12) && !Bit(m, 13) && !Bit(m, 14) && !Bit(m, 15);
    assert !Bit(m, 16) && !Bit(m, 17) && !Bit(m, 18) && !Bit(m, 19);
    assert !Bit(m, 20) && !Bit(m, 21) && !Bit(m, 22) && !Bit(m, 23);
    assert !Bit(m, 24) && !Bit(m, 25) && !Bit(m, 26) && !Bit(m, 27);
    assert !Bit(m, 28) && !Bit(m, 29) && !Bit(m, 30) && !Bit(m, 31);
  }

  /** The first `n` ids. */
  ghost function FirstIds(n: nat): set<ClientId>
    requires n <= 32
  {
    if n == 0 then {} else FirstIds(n - 1) + {(n - 1) as ClientId}
  }

  lemma {:induction false} FirstIdsCount(n: nat)
    requires n <= 32
    ensures |FirstIds(n)| <= n
  {
    if n > 0 {
      FirstIdsCount(n - 1);
    }
  }

  lemma {:induction false} IsFirstId(id: ClientId, number: nat, n: nat)
    requires number < n <= 32 && id == number as ClientId
    ensures id in FirstIds(n)
  {
    if number < n - 1 {
      IsFirstId(id, number, n - 1);
    }
  }

  lemma FewIds(m: bv32, n: nat)
    requires n == 32
    ensures |Ids(m)| <= n
  {
    forall id | id in Ids(m) ensures id in FirstIds(n) {
      IsFirstId(id, id as nat, n);
    }
    FirstIdsCount(n);
    SubsetSize(Ids(m), FirstIds(n));
  }
}
