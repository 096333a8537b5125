/** Bytes, little-endian words and the results of fallible operations. */
module Bytes {

  type byte = b: int | 0 <= b < 256

  datatype Option<+T> = None | Some(value: T)

  datatype Result<+T, +E> = Ok(value: T) | Err(error: E)

  const PAGE_BYTES: nat := 4096
  /** One more than the largest 64-bit word. */
  const WORD: nat := 0x1_0000_0000_0000_0000

  /** Sums and differences of words that stop at the ends of their range. */
  function SatAdd(a: nat, b: nat): nat {
    if a + b < WORD then a + b else WORD - 1
  }

  function SatSub(a: nat, b: nat): nat {
    if b <= a then a - b else 0
  }

  predicate NoRepeat(s: seq<nat>) {
    forall i, j | 0 <= i < j < |s| :: s[i] != s[j]
  }

  function RoundUp(n: nat): (r: nat)
    ensures n <= r < n + PAGE_BYTES && r % PAGE_BYTES == 0
  {
    RoundDown(n + (PAGE_BYTES - 1))
  }

  function RoundDown(n: nat): (r: nat)
    ensures r <= n < r + PAGE_BYTES && r % PAGE_BYTES == 0
  {
    n - n % PAGE_BYTES
  }

  lemma {:induction false} PagesMove(n: int, shift: int)
    requires n % PAGE_BYTES == 0 && shift % PAGE_BYTES == 0
    ensures (n + shift) % PAGE_BYTES == 0 && (n - shift) % PAGE_BYTES == 0
  {
  }

  /** The bytes of an ASCII text. */
  function Ascii(text: string): seq<byte>
    requires forall i | 0 <= i < |text| :: text[i] as int < 128
  {
    seq(|text|, i requires 0 <= i < |text| => text[i] as int)
  }

  /** Comparing pages is comparing their first addresses. */
  lemma {:induction false} PageOrder(n: nat, page: nat)
    requires n % PAGE_BYTES == 0
    ensures n / PAGE_BYTES <= page <==> n <= page * PAGE_BYTES
  {
  }

  lemma {:induction false} JoinSlices<T>(text: seq<T>, s: seq<T>, i: nat, j: nat)
    requires i <= j <= |s|
    ensures s[..i] + s[i..j] == s[..j]
    ensures text + s[..i] + s[i..j] == text + s[..j]
  {
  }

  lemma {:induction false} WholeSlice<T>(text: seq<T>, s: seq<T>)
    ensures s[..0] == [] && s[..|s|] == s
    ensures text + s[..0] == text && text + s[..|s|] == text + s
  {
  }

  function Le16(v: nat): (bytes: seq<byte>)
    ensures |bytes| == 2
  {
    [v % 256, (v / 256) % 256]
  }

  function Le32(v: nat): (bytes: seq<byte>)
    ensures |bytes| == 4
  {
    Le16(v % 0x1_0000) + Le16(v / 0x1_0000)
  }

  function Join16(low: nat, high: nat): nat {
    low + 256 * high
  }

  function ReadLe16(bytes: seq<byte>, offset: nat): (v: nat)
    requires offset + 2 <= |bytes|
    ensures v < 0x1_0000
  {
    Join16(bytes[offset], bytes[offset + 1])
  }

  function ReadLe32(bytes: seq<byte>, offset: nat): (v: nat)
    requires offset + 4 <= |bytes|
    ensures v < 0x1_0000_0000
  {
    ReadLe16(bytes, offset) + 0x1_0000 * ReadLe16(bytes, offset + 2)
  }

  function ReadLe64(bytes: seq<byte>, offset: nat): (v: nat)
    requires offset + 8 <= |bytes|
    ensures v < 0x1_0000_0000_0000_0000
  {
    ReadLe32(bytes, offset) + 0x1_0000_0000 * ReadLe32(bytes, offset + 4)
  }

  /** Writing a word and reading it back are inverse, in both directions. */
  lemma {:induction false} ReadWritten16(v: nat)
    requires v < 0x1_0000
    ensures ReadLe16(Le16(v), 0) == v
  {
  }

  lemma {:induction false} WriteRead16(bytes: seq<byte>, offset: nat)
    requires offset + 2 <= |bytes|
    ensures Le16(ReadLe16(bytes, offset)) == bytes[offset..offset + 2]
  {
  }

  lemma {:induction false} Le32OfHalves(low: nat, high: nat)
    requires low < 0x1_0000
    ensures Le32(low + 0x1_0000 * high) == Le16(low) + Le16(high)
  {
    var v := low + 0x1_0000 * high;
    assert v % 0x1_0000 == low && v / 0x1_0000 == high;
  }

  lemma {:induction false} ReadWritten32(v: nat)
    requires v < 0x1_0000_0000
    ensures ReadLe32(Le32(v), 0) == v
  {
    var low, high := v % 0x1_0000, v / 0x1_0000;
    ReadWritten16(low);
    ReadWritten16(high);
    assert Le32(v)[0..2] == Le16(low) && Le32(v)[2..4] == Le16(high);
  }

  lemma {:induction false} WriteRead32(bytes: seq<byte>, offset: nat)
    requires offset + 4 <= |bytes|
    ensures Le32(ReadLe32(bytes, offset)) == bytes[offset..offset + 4]
  {
    var low, high := ReadLe16(bytes, offset), ReadLe16(bytes, offset + 2);
    calc {
      Le32(ReadLe32(bytes, offset));
      { Le32OfHalves(low, high); }
      Le16(low) + Le16(high);
      { WriteRead16(bytes, offset); WriteRead16(bytes, offset + 2); }
      bytes[offset..offset + 2] + bytes[offset + 2..offset + 4];
      bytes[offset..offset + 4];
    }
  }

  function Le64(v: nat): (bytes: seq<byte>)
    ensures |bytes| == 8
  {
    Le32(v % 0x1_0000_0000) + Le32(v / 0x1_0000_0000)
  }

  lemma {:induction false} ReadWritten64(v: nat)
    requires v < WORD
    ensures ReadLe64(Le64(v), 0) == v
  {
    var low, high := v % 0x1_0000_0000, v / 0x1_0000_0000;
    ReadWritten32(low);
    ReadWritten32(high);
    assert Le64(v)[..4] == Le32(low) && Le64(v)[4..] == Le32(high);
    HalfOfWord(Le64(v), Le32(low), Le32(high));
  }

  lemma {:induction false} HalfOfWord(word: seq<byte>, low: seq<byte>, high: seq<byte>)
    requires |low| == 4 && |high| == 4 && word == low + high
    ensures ReadLe64(word, 0) == ReadLe32(low, 0) + 0x1_0000_0000 * ReadLe32(high, 0)
  {
    assert word[0] == low[0] && word[1] == low[1] && word[2] == low[2] && word[3] == low[3];
    assert word[4] == high[0] && word[5] == high[1] && word[6] == high[2] && word[7] == high[3];
  }

  /** The text stands in the bytes at a place. */
  predicate StandsAt(bytes: seq<byte>, at: nat, text: seq<byte>) {
    at + |text| <= |bytes| && bytes[at..at + |text|] == text
  }

  lemma {:induction false} StandsInParts(bytes: seq<byte>, at: nat, a: seq<byte>, b: seq<byte>)
    requires StandsAt(bytes, at, a + b)
    ensures StandsAt(bytes, at, a) && StandsAt(bytes, at + |a|, b)
  {
    assert bytes[at..at + |a|] == (a + b)[..|a|];
    assert bytes[at + |a|..at + |a| + |b|] == (a + b)[|a|..];
  }

  lemma {:induction false} ReadStanding16(bytes: seq<byte>, at: nat, v: nat)
    requires StandsAt(bytes, at, Le16(v)) && v < 0x1_0000
    ensures at + 2 <= |bytes| && ReadLe16(bytes, at) == v
  {
    ReadWritten16(v);
    var slice := bytes[at..at + 2];
    assert slice[0] == bytes[at] && slice[1] == bytes[at + 1];
  }

  lemma {:induction false} ReadStanding32(bytes: seq<byte>, at: nat, v: nat)
    requires StandsAt(bytes, at, Le32(v)) && v < 0x1_0000_0000
    ensures at + 4 <= |bytes| && ReadLe32(bytes, at) == v
  {
    hide Le16, ReadLe16;
    StandsInParts(bytes, at, Le16(v % 0x1_0000), Le16(v / 0x1_0000));
    ReadStanding16(bytes, at, v % 0x1_0000);
    ReadStanding16(bytes, at + 2, v / 0x1_0000);
  }

  lemma {:induction false} ReadStanding64(bytes: seq<byte>, at: nat, v: nat)
    requires StandsAt(bytes, at, Le64(v)) && v < WORD
    ensures at + 8 <= |bytes| && ReadLe64(bytes, at) == v
  {
    hide Le32, ReadLe32;
    StandsInParts(bytes, at, Le32(v % 0x1_0000_0000), Le32(v / 0x1_0000_0000));
    ReadStanding32(bytes, at, v % 0x1_0000_0000);
    ReadStanding32(bytes, at + 4, v / 0x1_0000_0000);
  }
}

/** The 32-bit FNV-1a hash, shared by the page codec and the syscall tracer. */
module Fnv {
  import opened Bytes

  const OFFSET_BASIS: nat := 0x811c_9dc5
  const PRIME: nat := 0x0100_0193
  const MODULUS: nat := 0x1_0000_0000

  /** Exclusive or of the low `bits` bits. */
  function Xor(a: nat, b: nat, bits: nat): (r: nat)
  {
    if bits == 0 then 0
    else (a % 2 + b % 2) % 2 + 2 * Xor(a / 2, b / 2, bits - 1)
  }

  function Bit(a: nat, i: nat): nat {
    if i == 0 then a % 2 else Bit(a / 2, i - 1)
  }

  /** Bit by bit: one exactly where the operands differ. */
  lemma {:induction false} XorBit(a: nat, b: nat, bits: nat, i: nat)
    requires i < bits
    ensures Bit(Xor(a, b, bits), i) == 1 <==> Bit(a, i) != Bit(b, i)
  {
    var rest := Xor(a / 2, b / 2, bits - 1);
    assert Xor(a, b, bits) % 2 == (a % 2 + b % 2) % 2 && Xor(a, b, bits) / 2 == rest;
    if i > 0 {
      XorBit(a / 2, b / 2, bits - 1, i - 1);
    }
  }

  /** Absorb one byte: xor it into the 32-bit hash, then multiply modulo 2^32. */
  function Mix(hash: nat, b: byte): (r: nat)
    ensures r < MODULUS
  {
    (Xor(hash, b, 32) * PRIME) % MODULUS
  }

  function Hash(data: seq<byte>): (r: nat)
    ensures r < MODULUS
  {
    if data == [] then OFFSET_BASIS else Mix(Hash(data[..|data| - 1]), data[|data| - 1])
  }

  method Fnv1a32(data: seq<byte>) returns (hash: nat)
    ensures hash == Hash(data)
  {
    hash := OFFSET_BASIS;
    for i := 0 to |data|
      invariant hash == Hash(data[..i])
    {
      assert data[..i + 1][..i] == data[..i];
      hash := Mix(hash, data[i]);
    }
    assert data[..|data|] == data;
  }
}
