/** `EntityId`: a 24-bit id and an 8-bit generation packed into one `uint`, and the
    `EntityManager` counter that hands out new entities. */
module Entities {
  import opened Machine
  import opened Bits

  const IdMask: u32 := 0x00FF_FFFF
  const GenMask: u32 := 0xFF00_0000

  /** Ids occupy the low 24 bits; the generation the 8 bits above them. */
  lemma MaskLayout()
    ensures IdMask as int == Pow2(24) - 1
    ensures GenMask as int == Shl(Pow2(8) - 1, 24)
  {
    Pow2Values();
    ShlIsMul(Pow2(8) - 1, 24);
  }

  /** The `EntityId` struct; its one stored field is `Data`. */
  datatype EntityId = EntityId(Data: u32)
  {
    /** `Id`'s getter: `Data & IdMask`. */
    function Id(): (r: u32)
      ensures r as int == Data as int % 0x100_0000
    {
      MaskLayout();
      AndLowMask(Data as nat, 24);
      And(Data as nat, IdMask as nat) as u32
    }

    /** `Generation`: `(byte)(Data >> 24)`, the cast keeping the low 8 bits. */
    function Generation(): (r: u8)
      ensures r as int == Data as int / 0x100_0000
    {
      Pow2Values();
      ShrIsDiv(Data as nat, 24);
      (Shr(Data as nat, 24) % 0x100) as u8
    }

    /** `Id`'s setter, which stores the whole value in `Data`. */
    function WithId(value: u32): (r: EntityId)
      ensures r.Data == value
      ensures r.Id() as int == value as int % 0x100_0000
      ensures r.Generation() as int == value as int / 0x100_0000
    {
      EntityId(value)
    }
  }

  /** Generation and id together are all of `Data`: the packing loses nothing. */
  lemma Packing(e: EntityId)
    ensures e.Data as int == e.Generation() as int * 0x100_0000 + e.Id() as int
  {
  }

  /** Two ids with the same generation and the same id are the same id. */
  lemma PackingInjective(e: EntityId, f: EntityId)
    requires e.Id() == f.Id() && e.Generation() == f.Generation()
    ensures e == f
  {
    Packing(e);
    Packing(f);
  }

  /** The two masks split `Data`: `Data & GenMask` is `Generation << 24` and the two
      masked parts add up to `Data`. */
  lemma {:induction false} MasksSplitData(e: EntityId)
    ensures And(e.Data as nat, GenMask as nat) == Shl(e.Generation() as nat, 24)
    ensures And(e.Data as nat, IdMask as nat) + And(e.Data as nat, GenMask as nat) == e.Data as nat
  {
    MaskLayout();
    Pow2Values();
    var x := e.Data as nat;
    AndShiftedMask(x, Pow2(8) - 1, 24);
    AndLowMask(Shr(x, 24), 8);
    ShrIsDiv(x, 24);
    assert Shr(x, 24) < 0x100;
    ShlIsMul(e.Generation() as nat, 24);
    AndLowMask(x, 24);
    Packing(e);
  }

  /** Setting an id that fits in 24 bits clears the generation, whatever it was. */
  lemma SetIdClearsGeneration(e: EntityId, value: u32)
    requires value <= IdMask
    ensures e.WithId(value).Generation() == 0
    ensures e.WithId(value).Id() == value
  {
  }

  /** The entities a manager has handed out: the `k`-th carries `Data == k + 1`, modulo
      2^32. */
  ghost predicate Counted(issued: seq<EntityId>)
  {
    forall k :: 0 <= k < |issued| ==> issued[k].Data as int == (k + 1) % Modulus32
  }

  /** Until the counter wraps, every new entity has a `Data` one above its predecessor. */
  lemma CountedAscending(issued: seq<EntityId>, j: nat, k: nat)
    requires Counted(issued) && |issued| < Modulus32
    requires j < k < |issued|
    ensures issued[j].Data < issued[k].Data
    ensures k == j + 1 ==> issued[k].Data as int == issued[j].Data as int + 1
  {
  }

  /** Ids repeat every 2^24 entities, one generation up. */
  lemma {:induction false} IdsRepeat(issued: seq<EntityId>, k: nat)
    requires Counted(issued) && |issued| < Modulus32
    requires k + 0x100_0000 < |issued|
    ensures issued[k + 0x100_0000].Id() == issued[k].Id()
    ensures issued[k + 0x100_0000].Generation() as int == issued[k].Generation() as int + 1
  {
    var a := k + 1;
    assert issued[k].Data as int == a;
    assert issued[k + 0x100_0000].Data as int == a + 0x100_0000;
    ModUnique(a + 0x100_0000, a / 0x100_0000 + 1, a % 0x100_0000, 0x100_0000);
  }

  lemma ModSucc(n: nat)
    ensures (n % Modulus32 + 1) % Modulus32 == (n + 1) % Modulus32
  {
    ModShift(n % Modulus32 + 1, n / Modulus32);
  }

  /** `EntityManager`: the counter behind `CreateEntity`. */
  class EntityManager {
    var entityCount: u32
    /** Every entity `CreateEntity` returned so far, in order. */
    ghost var issued: seq<EntityId>

    ghost predicate Valid()
      reads this
    {
      Counted(issued) && entityCount as int == |issued| % Modulus32
    }

    constructor ()
      ensures Valid() && entityCount == 0 && issued == []
    {
      entityCount := 0;
      issued := [];
    }

    /** `CreateEntity`: pre-increments the counter and puts it into a new id. */
    method CreateEntity() returns (e: EntityId)
      requires Valid()
      modifies this
      ensures Valid()
      ensures entityCount == IncU32(old(entityCount))
      ensures e.Data == entityCount && issued == old(issued) + [e]
    {
      entityCount := IncU32(entityCount);
      e := EntityId(0).WithId(entityCount);
      ModSucc(|issued|);
      issued := issued + [e];
    }

    /** `FreeEntity` does nothing. */
    method FreeEntity(entity: EntityId)
      ensures unchanged(this)
    {
    }
  }

  /** Three entities from a fresh manager. */
  method Scenario() {
    var m := new EntityManager();
    var a := m.CreateEntity();
    var b := m.CreateEntity();
    m.FreeEntity(a);
    var c := m.CreateEntity();
    assert a.Data == 1 && b.Data == 2 && c.Data == 3;
    assert c.Id() == 3 && c.Generation() == 0;
  }
}
