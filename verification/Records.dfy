/** Numbers as the on-disk formats write them: a fixed number of bytes, the lowest first. */
module Records {
  import opened Common

  function Digits(x: nat, width: nat): (r: seq<byte>)
    ensures |r| == width
  {
    if width == 0 then [] else [x % 256] + Digits(x / 256, width - 1)
  }

  /** The numbers `width` bytes can hold are those below. */
  function Limit(width: nat): (r: nat)
    ensures r >= 1
  {
    if width == 0 then 1 else 256 * Limit(width - 1)
  }

  lemma Limits()
    ensures Limit(1) == 0x100 && Limit(2) == 0x1_0000 && Limit(4) == 0x1_0000_0000 && Limit(8) == WORD
  {
    assert Limit(3) == 0x100_0000;
    assert Limit(5) == 0x100_0000_0000 && Limit(6) == 0x1_0000_0000_0000 && Limit(7) == 0x100_0000_0000_0000;
  }

  /** Reading gives back what was written. */
  lemma {:induction false} DigitsRead(x: nat, width: nat)
    requires x < Limit(width)
    ensures LittleEndian(Digits(x, width)) == x
  {
    if width > 0 {
      DigitsRead(x / 256, width - 1);
      assert Digits(x, width)[1..] == Digits(x / 256, width - 1);
    }
  }

  /** The number in `data[at .. at + width]` is `x`. */
  ghost predicate Has(data: seq<byte>, at: nat, width: nat, x: nat) {
    at + width <= |data| && data[at..at + width] == Digits(x, width) && x < Limit(width)
  }

  lemma HasRead(data: seq<byte>, at: nat, width: nat, x: nat)
    requires Has(data, at, width, x)
    ensures LittleEndian(data[at..at + width]) == x
  {
    DigitsRead(x, width);
  }

  /** A field of a record is where the record is. */
  lemma HasWithin(data: seq<byte>, at: nat, record: seq<byte>, field: nat, width: nat, x: nat)
    requires at + |record| <= |data| && data[at..at + |record|] == record && Has(record, field, width, x)
    ensures Has(data, at + field, width, x)
  {
    hide Digits, Limit;
    var a, b := data[at + field..at + field + width], record[field..field + width];
    forall i | 0 <= i < width ensures a[i] == b[i] {
      assert a[i] == data[at..at + |record|][field + i];
    }
    assert a == b;
  }
}
