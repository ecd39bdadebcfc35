/** generateEventId: 16 random bytes and a 32-bit big-endian counter. */
module EventIds {
  import opened Common

  type Byte = x: int | 0 <= x < 256

  const TWO_31: int := 0x8000_0000
  const TWO_32: int := 0x1_0000_0000
  const OFFSET: nat := 16
  const ID_LENGTH: nat := 20

  predicate Int32(v: int) {
    -TWO_31 <= v < TWO_31
  }

  function WriteInt32BE(v: int): (b: seq<Byte>)
    requires Int32(v)
    ensures |b| == 4
  {
    var u := if v < 0 then v + TWO_32 else v;
    [u / 0x100_0000, u / 0x1_0000 % 256, u / 0x100 % 256, u % 256]
  }

  function ReadInt32BE(b: seq<Byte>): (v: int)
    requires |b| == 4
    ensures Int32(v)
  {
    var u := (b[0] as int) * 0x100_0000 + (b[1] as int) * 0x1_0000 + (b[2] as int) * 0x100 + (b[3] as int);
    if u >= TWO_31 then u - TWO_32 else u
  }

  lemma ReadWritten(v: int)
    requires Int32(v)
    ensures ReadInt32BE(WriteInt32BE(v)) == v
  {
    var u := if v < 0 then v + TWO_32 else v;
    assert u == u / 0x100 * 0x100 + u % 0x100;
    assert u / 0x100 == u / 0x1_0000 * 0x100 + u / 0x100 % 256;
    assert u / 0x1_0000 == u / 0x100_0000 * 0x100 + u / 0x1_0000 % 256;
  }

  /** The buffer of an address space: none before the first call. */
  type State = Option<seq<Byte>>

  predicate Valid(s: State) {
    s.Some? ==> |s.value| == ID_LENGTH
  }

  /** One call: the new buffer, and the id, or None when writeInt32BE throws because the counter
      has reached its largest value. */
  function Generate(s: State, random: seq<Byte>): (State, Option<seq<Byte>>)
    requires Valid(s) && |random| == ID_LENGTH
  {
    var buffer := if s.None? then random[..OFFSET] + WriteInt32BE(0) else s.value;
    var count := ReadInt32BE(buffer[OFFSET..]) + 1;
    if !Int32(count) then (Some(buffer), None)
    else
      var next := buffer[..OFFSET] + WriteInt32BE(count);
      (Some(next), Some(next))
  }

  /** The state after `n` calls, of which only the first uses its random bytes. */
  function After(n: nat, random: seq<Byte>): (s: State)
    requires |random| == ID_LENGTH
    ensures Valid(s)
  {
    if n == 0 then None else Generate(After(n - 1, random), random).0
  }

  /** The id of call number `n`, counted from 1. */
  function Id(n: nat, random: seq<Byte>): Option<seq<Byte>>
    requires n > 0 && |random| == ID_LENGTH
  {
    Generate(After(n - 1, random), random).1
  }

  function Min(a: int, b: int): int {
    if a < b then a else b
  }

  lemma {:induction false} AfterCalls(n: nat, random: seq<Byte>)
    requires n > 0 && |random| == ID_LENGTH
    ensures After(n, random) == Some(random[..OFFSET] + WriteInt32BE(Min(n, TWO_31 - 1)))
    ensures Id(n, random) == if n < TWO_31 then After(n, random) else None
    decreases n
  {
    var prefix, count := random[..OFFSET], Min(n - 1, TWO_31 - 1);
    if n > 1 {
      AfterCalls(n - 1, random);
    }
    var buffer := prefix + WriteInt32BE(count);
    assert buffer[..OFFSET] == prefix && buffer[OFFSET..] == WriteInt32BE(count);
    ReadWritten(count);
  }

  /** The first 2^31 - 1 calls give pairwise distinct ids, which differ in the last four bytes only;
      every later call throws. */
  lemma IdsDistinct(i: nat, j: nat, random: seq<Byte>)
    requires 0 < i && 0 < j && |random| == ID_LENGTH
    ensures Id(i, random).Some? <==> i <= 0x7fff_ffff
    ensures Id(i, random).Some? ==>
      |Id(i, random).value| == ID_LENGTH && Id(i, random).value[..OFFSET] == random[..OFFSET]
    ensures Id(i, random).Some? && i != j ==> Id(i, random) != Id(j, random)
  {
    AfterCalls(i, random);
    AfterCalls(j, random);
    if i < TWO_31 && j < TWO_31 {
      ReadWritten(i);
      ReadWritten(j);
      assert (random[..OFFSET] + WriteInt32BE(i))[OFFSET..] == WriteInt32BE(i);
      assert (random[..OFFSET] + WriteInt32BE(j))[OFFSET..] == WriteInt32BE(j);
    }
  }

  /** The last four bytes of id number `n` are the base 256 digits of `n`, the highest first. */
  lemma BytesOfId(n: nat, random: seq<Byte>)
    requires 0 < n <= 0x7fff_ffff && |random| == ID_LENGTH
    ensures var id := Id(n, random);
      && id.Some? && |id.value| == 20
      && (id.value[16] as int) * 0x100_0000 + (id.value[17] as int) * 0x1_0000 + (id.value[18] as int) * 0x100
         + (id.value[19] as int) == n
  {
    AfterCalls(n, random);
    ReadWritten(n);
    var b := WriteInt32BE(n);
    assert Id(n, random).value == random[..OFFSET] + b;
  }

  class AddressSpace {
    var eventIdCounter: array?<Byte>

    function Buffer(): State
      reads this, eventIdCounter
    {
      if eventIdCounter == null then None else Some(eventIdCounter[..])
    }

    constructor ()
      ensures Buffer() == None
    {
      eventIdCounter := null;
    }

    /** False when it throws, and then the buffer is not touched. */
    method WriteCounter(v: int) returns (ok: bool)
      requires eventIdCounter != null && eventIdCounter.Length == ID_LENGTH
      modifies eventIdCounter
      ensures ok <==> Int32(v)
      ensures eventIdCounter[..] ==
        if ok then old(eventIdCounter[..])[..OFFSET] + WriteInt32BE(v) else old(eventIdCounter[..])
    {
      if !(-TWO_31 <= v < TWO_31) {
        return false;
      }
      var b := WriteInt32BE(v);
      eventIdCounter[OFFSET] := b[0];
      eventIdCounter[OFFSET + 1] := b[1];
      eventIdCounter[OFFSET + 2] := b[2];
      eventIdCounter[OFFSET + 3] := b[3];
      ok := true;
    }

    method GenerateEventId(random: seq<Byte>) returns (id: Option<seq<Byte>>)
      requires Valid(Buffer()) && |random| == ID_LENGTH
      modifies this, eventIdCounter
      ensures (Buffer(), id) == Generate(old(Buffer()), random)
      ensures Valid(Buffer()) && (old(eventIdCounter) != null ==> eventIdCounter == old(eventIdCounter))
    {
      if eventIdCounter == null {
        eventIdCounter := new Byte[ID_LENGTH](i requires 0 <= i < ID_LENGTH => random[i]);
        assert eventIdCounter[..] == random;
        var _ := WriteCounter(0);
      }
      var count := ReadInt32BE(eventIdCounter[OFFSET..]);
      var ok := WriteCounter(count + 1);
      id := if ok then Some(eventIdCounter[..]) else None;
    }
  }
}
