/** The library's growable byte buffer: a fixed capacity, filled from the front. */
module AlignedMemory {
  import opened Words
  import opened Bytes
  import opened AccountLayout

  datatype CapacityError = CapacityExceeded

  class AlignedBuffer {
    const mem: array<byte>
    var len: nat

    ghost predicate Valid()
      reads this
    {
      len <= mem.Length
    }

    ghost function Contents(): (s: seq<byte>)
      requires Valid()
      reads this, mem
      ensures |s| == len
    {
      mem[..len]
    }

    constructor WithCapacity(capacity: nat)
      ensures Valid() && fresh(mem) && mem.Length == capacity && Contents() == []
    {
      mem := new byte[capacity];
      len := 0;
    }

    static lemma PutParts(s: seq<byte>, at: nat, bytes: seq<byte>)
      requires at + |bytes| <= |s|
      ensures var r := Put(s, at, bytes);
              r[..at] == s[..at] && r[at..at + |bytes|] == bytes && r[at + |bytes|..] == s[at + |bytes|..]
    {
    }

    method Store(at: nat, value: seq<byte>)
      requires at + |value| <= mem.Length
      modifies mem
      ensures mem[..] == Put(old(mem[..]), at, value)
      ensures mem[..at] == old(mem[..at]) && mem[at..at + |value|] == value
      ensures mem[at + |value|..] == old(mem[at + |value|..])
    {
      CopyFromSlice(mem, at, value);
      PutParts(old(mem[..]), at, value);
    }

    /** Appends without a capacity check. */
    method WriteAllUnchecked(value: seq<byte>)
      requires Valid() && len + |value| <= mem.Length
      modifies this, mem
      ensures Valid() && Contents() == old(Contents()) + value
    {
      Store(len, value);
      len := len + |value|;
    }

    /** Appends `num` copies of `value`, if they fit. */
    method FillWrite(num: nat, value: byte) returns (r: Result<(), CapacityError>)
      requires Valid()
      modifies this, mem
      ensures Valid()
      ensures r.Ok? <==> old(len) + num <= mem.Length
      ensures r.Ok? ==> Contents() == old(Contents()) + Repeated(num, value)
      ensures r.Err? ==> Contents() == old(Contents())
    {
      if len + num > mem.Length {
        return Err(CapacityExceeded);
      }
      Store(len, Repeated(num, value));
      len := len + num;
      return Ok(());
    }

    /** Copies `value` over the filled bytes from `at` on. */
    method Overwrite(at: nat, value: seq<byte>)
      requires Valid() && at + |value| <= len
      modifies mem
      ensures Contents() == Put(old(Contents()), at, value)
    {
      Store(at, value);
    }
  }
}
