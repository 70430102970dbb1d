/** Snowflake ids: four bit fields packed into 64 bits. */
module Snowflake {
  import opened Bits

  type Uint42 = x: nat | x < 0x400_0000_0000
  type Uint12 = x: nat | x < 0x1000
  type Uint5 = x: nat | x < 0x20

  datatype Fields = Fields(timestamp: Uint42, workerId: Uint5, processId: Uint5, sequence: Uint12)

  /** `last_millisecond`, which is never assigned after its initialisation. */
  const LAST_MILLISECOND: Uint64 := 0

  /** The conversion to `uint64_t`. */
  function Pack(f: Fields): nat {
    Or(Or(Or(Shl(f.timestamp, 22), Shl(f.workerId, 17)), Shl(f.processId, 12)), f.sequence)
  }

  /** The number an id stands for. */
  lemma PackValue(f: Fields)
    ensures Pack(f) == f.timestamp * 0x40_0000 + f.workerId * 0x2_0000 + f.processId * 0x1000 + f.sequence
    ensures Pack(f) < 0x1_0000_0000_0000_0000
  {
    hide Or, Shl, Pow2;
    Powers();
    var t, w, p := f.timestamp * 0x40_0000, f.workerId * 0x2_0000, f.processId * 0x1000;
    ShlExact(f.timestamp, 22, 0x40_0000);
    ShlExact(f.workerId, 17, 0x2_0000);
    ShlExact(f.processId, 12, 0x1000);
    OrSum(t, w, f.timestamp, 22, 0x40_0000);
    OrSum(t + w, p, f.timestamp * 0x20 + f.workerId, 17, 0x2_0000);
    OrSum(t + w + p, f.sequence, f.timestamp * 0x400 + f.workerId * 0x20 + f.processId, 12, 0x1000);
  }

  lemma Powers()
    ensures Pow2(5) == 0x20 && Pow2(12) == 0x1000 && Pow2(17) == 0x2_0000
    ensures Pow2(22) == 0x40_0000 && Pow2(42) == 0x400_0000_0000
  {
    assert Pow2(5) == 0x20;
    assert Pow2(10) == 0x400;
    assert Pow2(12) == 0x1000;
    assert Pow2(17) == 0x2_0000;
    assert Pow2(22) == 0x40_0000;
    assert Pow2(27) == 0x800_0000;
    assert Pow2(32) == 0x1_0000_0000;
    assert Pow2(37) == 0x20_0000_0000;
    assert Pow2(42) == 0x400_0000_0000;
  }

  /** The fields of an id, by shifting and masking. */
  function Unpack(id: Uint64): Fields {
    UnpackFits(id);
    Fields(Shr(id, 22), And(Shr(id, 17), 0x1F), And(Shr(id, 12), 0x1F), And(id, 0xFFF))
  }

  lemma UnpackFits(id: Uint64)
    ensures Shr(id, 22) == id / 0x40_0000 < 0x400_0000_0000
    ensures And(Shr(id, 17), 0x1F) == (id / 0x2_0000) % 0x20
    ensures And(Shr(id, 12), 0x1F) == (id / 0x1000) % 0x20
    ensures And(id, 0xFFF) == id % 0x1000
  {
    Powers();
    ShrDivides(id, 22);
    ShrDivides(id, 17);
    ShrDivides(id, 12);
    AndMask(Shr(id, 17), 5);
    AndMask(Shr(id, 12), 5);
    AndMask(id, 12);
  }

  lemma NestedDivision(id: nat)
    ensures id / 0x2_0000 == id / 0x1000 / 0x20 && id / 0x40_0000 == id / 0x2_0000 / 0x20
  {
  }

  lemma DivideBy(n: nat, d: nat, q: nat, r: nat)
    requires d == 0x1000 || d == 0x20
    requires n == q * d + r && r < d
    ensures n / d == q && n % d == r
  {
  }

  /** A number is the sum of its digits, in the mixed radix of the layout, ... */
  lemma SumOfDigits(id: nat)
    ensures id == (id / 0x40_0000) * 0x40_0000 + (id / 0x2_0000 % 0x20) * 0x2_0000
                  + (id / 0x1000 % 0x20) * 0x1000 + id % 0x1000
  {
    NestedDivision(id);
    var a, b := id / 0x1000, id / 0x2_0000;
    assert id == a * 0x1000 + id % 0x1000;
    assert a == b * 0x20 + a % 0x20;
    assert b == (id / 0x40_0000) * 0x20 + b % 0x20;
  }

  /** ... and its digits are the fields it was summed from. */
  lemma DigitsOfSum(f: Fields)
    ensures var id := f.timestamp * 0x40_0000 + f.workerId * 0x2_0000 + f.processId * 0x1000 + f.sequence;
            && id / 0x40_0000 == f.timestamp && id / 0x2_0000 % 0x20 == f.workerId
            && id / 0x1000 % 0x20 == f.processId && id % 0x1000 == f.sequence
  {
    var t: nat, w: nat, p: nat, s: nat := f.timestamp, f.workerId, f.processId, f.sequence;
    var id: nat := t * 0x40_0000 + w * 0x2_0000 + p * 0x1000 + s;
    NestedDivision(id);
    DivideBy(id, 0x1000, t * 0x400 + w * 0x20 + p, s);
    DivideBy(t * 0x400 + w * 0x20 + p, 0x20, t * 0x20 + w, p);
    DivideBy(t * 0x20 + w, 0x20, t, w);
  }

  /** Every 64-bit id is the packing of its fields. */
  lemma PackUnpack(id: Uint64)
    ensures Pack(Unpack(id)) == id
  {
    hide Pack, And, Shr;
    UnpackFits(id);
    PackValue(Unpack(id));
    SumOfDigits(id);
  }

  /** Every choice of fields is recovered from its id. */
  lemma UnpackPack(f: Fields)
    ensures Pack(f) < 0x1_0000_0000_0000_0000
    ensures Unpack(Pack(f)) == f
  {
    hide Pack, And, Shr;
    PackValue(f);
    UnpackFits(Pack(f));
    DigitsOfSum(f);
  }

  /** Lexicographic order of the fields, from the timestamp down to the sequence. */
  predicate Precedes(a: Fields, b: Fields) {
    a.timestamp < b.timestamp || (a.timestamp == b.timestamp &&
    (a.workerId < b.workerId || (a.workerId == b.workerId &&
    (a.processId < b.processId || (a.processId == b.processId &&
    a.sequence < b.sequence)))))
  }

  /** Ids are ordered as numbers exactly as their fields are ordered lexicographically; in particular
      two ids are equal exactly when all their fields are. */
  lemma OrderIsomorphism(a: Fields, b: Fields)
    ensures Pack(a) < Pack(b) <==> Precedes(a, b)
    ensures Pack(a) == Pack(b) <==> a == b
  {
    hide Pack;
    PackValue(a);
    PackValue(b);
  }

  /** A clock reading cut down to the width of the timestamp field. */
  function Timestamp(milliseconds: Uint64): Uint42 {
    milliseconds % 0x400_0000_0000
  }

  /** The fields of an id generated at a clock reading. When the timestamp equals LAST_MILLISECOND,
      the sequence field is incremented without having been initialised; `garbage` is its content. */
  function Generate(milliseconds: Uint64, garbage: Uint12): Fields {
    var timestamp := Timestamp(milliseconds);
    Fields(timestamp, 0, 0, if LAST_MILLISECOND == timestamp then (garbage + 1) % 0x1000 else 0)
  }

  /** Ids generated when the timestamp is not zero are ordered as their clock readings modulo 2^42, so
      that they increase strictly with the clock below 2^42; at one reading they coincide. */
  lemma ClockOrder(earlier: Uint64, later: Uint64, g1: Uint12, g2: Uint12)
    requires earlier % 0x400_0000_0000 != 0 && later % 0x400_0000_0000 != 0
    ensures Pack(Generate(earlier, g1)) < Pack(Generate(later, g2)) <==>
              earlier % 0x400_0000_0000 < later % 0x400_0000_0000
    ensures earlier < later < 0x400_0000_0000 ==> Pack(Generate(earlier, g1)) < Pack(Generate(later, g2))
    ensures earlier == later ==> Pack(Generate(earlier, g1)) == Pack(Generate(later, g2))
  {
    hide Pack;
    OrderIsomorphism(Generate(earlier, g1), Generate(later, g2));
  }

  /** The number of a generated id: the clock reading modulo 2^42 and shifted by 22 bits, and nothing
      else, unless the reading is a multiple of 2^42. */
  lemma GeneratedValue(milliseconds: Uint64, garbage: Uint12)
    ensures Pack(Generate(milliseconds, garbage)) ==
              if milliseconds % 0x400_0000_0000 != 0 then milliseconds % 0x400_0000_0000 * 0x40_0000
              else (garbage + 1) % 0x1000
  {
    hide Pack;
    PackValue(Generate(milliseconds, garbage));
  }

  class Snowflake {
    var value: Fields

    /** The clock constructor. */
    constructor (milliseconds: Uint64, garbage: Uint12)
      ensures value == Generate(milliseconds, garbage)
      ensures value.timestamp == milliseconds % 0x400_0000_0000 && value.workerId == 0 && value.processId == 0
      ensures value.sequence == if value.timestamp == 0 then (garbage + 1) % 0x1000 else 0
    {
      value := Fields(Timestamp(milliseconds), 0, 0, garbage);
      new;
      if LAST_MILLISECOND == value.timestamp {
        value := value.(sequence := (value.sequence + 1) % 0x1000);
      } else {
        value := value.(sequence := 0);
      }
    }

    constructor FromId(id: Uint64)
      ensures value == Unpack(id) && Pack(value) == id
      ensures value.timestamp == id / 0x40_0000 && value.workerId == id / 0x2_0000 % 0x20
      ensures value.processId == id / 0x1000 % 0x20 && value.sequence == id % 0x1000
    {
      value := Unpack(id);
      PackUnpack(id);
      UnpackFits(id);
    }

    method AssignId(id: Uint64)
      modifies this
      ensures value == Unpack(id) && Pack(value) == id
      ensures value.timestamp == id / 0x40_0000 && value.workerId == id / 0x2_0000 % 0x20
      ensures value.processId == id / 0x1000 % 0x20 && value.sequence == id % 0x1000
    {
      var other := new Snowflake.FromId(id);
      value := other.value;
    }

    /** Two snowflakes are equal field by field exactly when their ids are equal. */
    predicate Equals(other: Snowflake)
      reads this, other
      ensures Equals(other) <==> Pack(value) == Pack(other.value)
    {
      OrderIsomorphism(value, other.value);
      && value.timestamp == other.value.timestamp
      && value.workerId == other.value.workerId
      && value.processId == other.value.processId
      && value.sequence == other.value.sequence
    }

    /** A snowflake equals an id exactly when its fields are those of the id. */
    predicate EqualsId(id: Uint64)
      reads this
      ensures EqualsId(id) <==> value == Unpack(id)
    {
      PackUnpack(id);
      UnpackPack(value);
      Pack(value) == id
    }
  }
}
