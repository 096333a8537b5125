/**
 The initial user stack (System V AMD64 psABI, section 3.4.1): the kernel writes it
 through the physical addresses of its sixteen frames, and the program reads it back
 through its own addresses.
 */
module UserStack {
  import opened Bytes

  const STACK_TOP: nat := 0x7fff_ffff_0000
  const STACK_PAGES: nat := 16
  const STACK_BYTES: nat := 0x1_0000
  const STACK_BOTTOM: nat := STACK_TOP - STACK_BYTES

  /** Physical memory, byte by byte. */
  type Memory = nat -> byte

  function Stored(mem: Memory, address: nat, bytes: seq<byte>): Memory {
    (a: nat) => if address <= a < address + |bytes| then bytes[a - address] else mem(a)
  }

  function LoadBytes(mem: Memory, address: nat, n: nat): (bytes: seq<byte>)
    ensures |bytes| == n && forall k | 0 <= k < n :: bytes[k] == mem(address + k)
  {
    seq(n, k requires 0 <= k < n => mem(address + k))
  }

  /** Sixteen different page frames. */
  predicate Frames16(phys: seq<nat>) {
    && |phys| == STACK_PAGES
    && (forall i | 0 <= i < STACK_PAGES :: phys[i] % PAGE_BYTES == 0)
    && forall i, j | 0 <= i < j < STACK_PAGES :: phys[i] != phys[j]
  }

  predicate OnStack(address: int) {
    STACK_BOTTOM <= address < STACK_TOP
  }

  /** Where a user address of the stack lies in physical memory. */
  function Physical(phys: seq<nat>, address: nat): nat
    requires Frames16(phys) && OnStack(address)
  {
    var offset := address - STACK_BOTTOM;
    phys[offset / PAGE_BYTES] + offset % PAGE_BYTES
  }

  predicate Consecutive(phys: seq<nat>)
    requires Frames16(phys)
  {
    forall i | 0 <= i < STACK_PAGES :: phys[i] == phys[0] + i * PAGE_BYTES
  }

  lemma {:induction false} PhysicalIsLinear(phys: seq<nat>, address: nat)
    requires Frames16(phys) && Consecutive(phys) && OnStack(address)
    ensures Physical(phys, address) == phys[0] + (address - STACK_BOTTOM)
  {
    var offset := address - STACK_BOTTOM;
    assert phys[offset / PAGE_BYTES] == phys[0] + offset / PAGE_BYTES * PAGE_BYTES;
  }

  /** The stack bytes from u up to and including u + n lie side by side in physical memory. */
  predicate Whole(phys: seq<nat>, u: nat, n: nat)
    requires Frames16(phys) && OnStack(u) && OnStack(u + n)
  {
    forall a | u <= a <= u + n :: Physical(phys, a) == Physical(phys, u) + (a - u)
  }

  /** The same page by page: every frame of the range but the last is followed by the next one. */
  lemma {:induction false} WholeIffAdjacent(phys: seq<nat>, u: nat, n: nat)
    requires Frames16(phys) && OnStack(u) && OnStack(u + n)
    ensures Whole(phys, u, n) <==>
              forall i | PageIn(u) <= i < PageIn(u + n) :: phys[i + 1] == phys[i] + PAGE_BYTES
  {
    if Whole(phys, u, n) {
      forall i | PageIn(u) <= i < PageIn(u + n)
        ensures phys[i + 1] == phys[i] + PAGE_BYTES
      {
        var next := STACK_BOTTOM + (i + 1) * PAGE_BYTES;
        PageStart(i + 1);
        PageBefore(u, i);
        assert Physical(phys, next) == phys[i + 1];
        assert Physical(phys, next - 1) == phys[i] + (PAGE_BYTES - 1);
      }
    }
    if forall i | PageIn(u) <= i < PageIn(u + n) :: phys[i + 1] == phys[i] + PAGE_BYTES {
      AdjacentIsWhole(phys, u, n);
    }
  }

  /** The number of the stack page an address lies in. */
  function PageIn(address: nat): (i: nat)
    requires OnStack(address)
    ensures i < STACK_PAGES
  {
    (address - STACK_BOTTOM) / PAGE_BYTES
  }

  lemma {:induction false} PageStart(i: nat)
    requires 0 < i < STACK_PAGES
    ensures var start := STACK_BOTTOM + i * PAGE_BYTES;
            && OnStack(start) && PageIn(start) == i && (start - STACK_BOTTOM) % PAGE_BYTES == 0
            && OnStack(start - 1) && PageIn(start - 1) == i - 1 && (start - 1 - STACK_BOTTOM) % PAGE_BYTES == PAGE_BYTES - 1
  {
  }

  lemma {:induction false} PageBefore(u: nat, i: nat)
    requires OnStack(u) && PageIn(u) <= i
    ensures u <= STACK_BOTTOM + (i + 1) * PAGE_BYTES - 1
  {
  }

  lemma {:induction false} AdjacentIsWhole(phys: seq<nat>, u: nat, n: nat)
    requires Frames16(phys) && OnStack(u) && OnStack(u + n)
    requires forall i | PageIn(u) <= i < PageIn(u + n) :: phys[i + 1] == phys[i] + PAGE_BYTES
    ensures Whole(phys, u, n)
  {
    forall a | u <= a <= u + n
      ensures Physical(phys, a) == Physical(phys, u) + (a - u)
    {
      FrameAfter(phys, PageIn(u), PageIn(a));
      var x, y := u - STACK_BOTTOM, a - STACK_BOTTOM;
      assert x == x / PAGE_BYTES * PAGE_BYTES + x % PAGE_BYTES && y == y / PAGE_BYTES * PAGE_BYTES + y % PAGE_BYTES;
    }
  }

  lemma {:induction false} FrameAfter(phys: seq<nat>, i: nat, j: nat)
    requires i <= j < |phys| && forall k | i <= k < j :: phys[k + 1] == phys[k] + PAGE_BYTES
    ensures phys[j] == phys[i] + (j - i) * PAGE_BYTES
  {
    if i < j {
      FrameAfter(phys, i, j - 1);
    }
  }

  lemma {:induction false} ConsecutiveIsWhole(phys: seq<nat>, u: nat, n: nat)
    requires Frames16(phys) && Consecutive(phys) && OnStack(u) && OnStack(u + n)
    ensures Whole(phys, u, n)
  {
    hide Physical;
    PhysicalIsLinear(phys, u);
    forall a | u <= a <= u + n
      ensures Physical(phys, a) == Physical(phys, u) + (a - u)
    {
      PhysicalIsLinear(phys, a);
    }
  }

  /** Different stack addresses lie at different places. */
  lemma {:induction false} PhysicalIsInjective(phys: seq<nat>, a: nat, b: nat)
    requires Frames16(phys) && OnStack(a) && OnStack(b) && Physical(phys, a) == Physical(phys, b)
    ensures a == b
  {
    hide Physical, Frames16;
    if (a - STACK_BOTTOM) / PAGE_BYTES != (b - STACK_BOTTOM) / PAGE_BYTES {
      PagesLieApart(phys, a, b);
    } else {
      PlacesInAPage(phys, a, b);
    }
  }

  lemma {:induction false} PagesLieApart(phys: seq<nat>, a: nat, b: nat)
    requires Frames16(phys) && OnStack(a) && OnStack(b)
    requires (a - STACK_BOTTOM) / PAGE_BYTES != (b - STACK_BOTTOM) / PAGE_BYTES
    ensures Physical(phys, a) != Physical(phys, b)
  {
    var x, y := a - STACK_BOTTOM, b - STACK_BOTTOM;
    FramesApart(phys[x / PAGE_BYTES], phys[y / PAGE_BYTES], x % PAGE_BYTES, y % PAGE_BYTES);
  }

  lemma {:induction false} PlacesInAPage(phys: seq<nat>, a: nat, b: nat)
    requires Frames16(phys) && OnStack(a) && OnStack(b) && Physical(phys, a) == Physical(phys, b)
    requires (a - STACK_BOTTOM) / PAGE_BYTES == (b - STACK_BOTTOM) / PAGE_BYTES
    ensures a == b
  {
  }

  lemma {:induction false} FramesApart(p: nat, q: nat, x: nat, y: nat)
    requires p % PAGE_BYTES == 0 && q % PAGE_BYTES == 0 && p != q && x < PAGE_BYTES && y < PAGE_BYTES
    ensures p + x != q + y
  {
  }

  /** A physical address in none of the frames. */
  predicate OffFrames(phys: seq<nat>, a: nat) {
    forall i | 0 <= i < |phys| :: !(phys[i] <= a < phys[i] + PAGE_BYTES)
  }

  lemma {:induction false} PhysicalIsInFrames(phys: seq<nat>, address: nat)
    requires Frames16(phys) && OnStack(address)
    ensures !OffFrames(phys, Physical(phys, address))
  {
    var i := (address - STACK_BOTTOM) / PAGE_BYTES;
    assert phys[i] <= Physical(phys, address) < phys[i] + PAGE_BYTES;
  }

  /** An aligned word lies within one frame. */
  lemma {:induction false} WordIsContiguous(phys: seq<nat>, u: nat, k: nat)
    requires Frames16(phys) && OnStack(u) && u % 8 == 0 && k < 8
    ensures OnStack(u + k) && Physical(phys, u + k) == Physical(phys, u) + k
  {
    var offset := u - STACK_BOTTOM;
    assert offset % 8 == 0;
    assert offset % PAGE_BYTES <= PAGE_BYTES - 8;
    assert (offset + k) / PAGE_BYTES == offset / PAGE_BYTES && (offset + k) % PAGE_BYTES == offset % PAGE_BYTES + k;
  }

  lemma {:induction false} WordIsWhole(phys: seq<nat>, u: nat)
    requires Frames16(phys) && OnStack(u) && u % 8 == 0
    ensures OnStack(u + 7) && Whole(phys, u, 7)
  {
    hide Physical;
    WordIsContiguous(phys, u, 7);
    forall a | u <= a <= u + 7
      ensures OnStack(a) && Physical(phys, a) == Physical(phys, u) + (a - u)
    {
      WordIsContiguous(phys, u, a - u);
    }
  }

  /** Different aligned words share no byte. */
  lemma {:induction false} WordsAreApart(phys: seq<nat>, u: nat, w: nat)
    requires Frames16(phys) && OnStack(u) && OnStack(w) && u % 8 == 0 && w % 8 == 0 && u != w
    ensures Physical(phys, u) + 8 <= Physical(phys, w) || Physical(phys, w) + 8 <= Physical(phys, u)
  {
    hide Physical, Frames16;
    if Physical(phys, u) <= Physical(phys, w) {
      StartsElsewhere(phys, u, w);
    } else {
      StartsElsewhere(phys, w, u);
    }
  }

  lemma {:induction false} StartsElsewhere(phys: seq<nat>, u: nat, w: nat)
    requires Frames16(phys) && OnStack(u) && OnStack(w) && u % 8 == 0 && w % 8 == 0 && u != w
    requires Physical(phys, u) <= Physical(phys, w)
    ensures Physical(phys, u) + 8 <= Physical(phys, w)
  {
    hide Physical, Frames16;
    var d := Physical(phys, w) - Physical(phys, u);
    if d < 8 {
      WordIsContiguous(phys, u, d);
      PhysicalIsInjective(phys, u + d, w);
    }
  }

  // ------------------------------------------------------------------- words

  /** The byte and the word a program reads at its own addresses. */
  function UserByte(mem: Memory, phys: seq<nat>, address: nat): byte
    requires Frames16(phys) && OnStack(address)
  {
    mem(Physical(phys, address))
  }

  function UserWord(mem: Memory, phys: seq<nat>, u: nat): nat
    requires Frames16(phys) && OnStack(u) && u % 8 == 0
  {
    ReadLe64(LoadBytes(mem, Physical(phys, u), 8), 0)
  }

  lemma {:induction false} WordStored(mem: Memory, phys: seq<nat>, u: nat, v: nat)
    requires Frames16(phys) && OnStack(u) && u % 8 == 0 && v < WORD
    ensures UserWord(Stored(mem, Physical(phys, u), Le64(v)), phys, u) == v
  {
    hide Le64, ReadLe64, Physical, LoadBytes;
    var at, bytes := Physical(phys, u), Le64(v);
    assert LoadBytes(Stored(mem, at, bytes), at, 8) == bytes;
    ReadWritten64(v);
  }

  lemma {:induction false} OtherWordKept(mem: Memory, phys: seq<nat>, u: nat, v: nat, w: nat)
    requires Frames16(phys) && OnStack(u) && u % 8 == 0 && OnStack(w) && w % 8 == 0 && w != u
    ensures UserWord(Stored(mem, Physical(phys, u), Le64(v)), phys, w) == UserWord(mem, phys, w)
  {
    hide Le64, ReadLe64, Physical, LoadBytes;
    var at, other := Physical(phys, u), Physical(phys, w);
    WordsAreApart(phys, u, w);
    assert LoadBytes(Stored(mem, at, Le64(v)), other, 8) == LoadBytes(mem, other, 8);
  }

  /** The words found from an address upwards. */
  ghost predicate WordsAt(mem: Memory, phys: seq<nat>, sp: nat, words: seq<nat>)
    requires Frames16(phys)
  {
    && sp % 8 == 0 && STACK_BOTTOM <= sp && sp + 8 * |words| <= STACK_TOP
    && forall k | 0 <= k < |words| :: UserWord(mem, phys, sp + 8 * k) == words[k]
  }

  lemma {:induction false} WordPushed(mem: Memory, phys: seq<nat>, sp: nat, words: seq<nat>, v: nat)
    requires Frames16(phys) && WordsAt(mem, phys, sp, words) && STACK_BOTTOM + 8 <= sp && v < WORD
    ensures WordsAt(Stored(mem, Physical(phys, sp - 8), Le64(v)), phys, sp - 8, [v] + words)
  {
    hide UserWord, Stored, Physical, Le64, Frames16;
    assert OnStack(sp - 8) && (sp - 8) % 8 == 0 by { WordBelow(sp, 8 * |words|); }
    var after := Stored(mem, Physical(phys, sp - 8), Le64(v));
    WordStored(mem, phys, sp - 8, v);
    forall k | 0 <= k < |words| + 1
      ensures UserWord(after, phys, sp - 8 + 8 * k) == ([v] + words)[k]
    {
      if k > 0 {
        WordFound(mem, phys, sp, words, k - 1);
        OtherWordKept(mem, phys, sp - 8, v, sp + 8 * (k - 1));
        assert sp - 8 + 8 * k == sp + 8 * (k - 1);
      }
    }
  }

  lemma {:induction false} WordBelow(sp: nat, above: nat)
    requires sp % 8 == 0 && STACK_BOTTOM + 8 <= sp && sp + above <= STACK_TOP
    ensures OnStack(sp - 8) && (sp - 8) % 8 == 0
  {
  }

  // ----------------------------------------------------------------- strings

  function Size(texts: seq<seq<byte>>): nat {
    if texts == [] then 0 else Size(texts[..|texts| - 1]) + |texts[|texts| - 1]| + 1
  }

  lemma {:induction false} SizeStep(texts: seq<seq<byte>>, i: nat)
    requires i < |texts|
    ensures Size(texts[..i + 1]) == Size(texts[..i]) + |texts[i]| + 1
  {
    assert texts[..i + 1][..i] == texts[..i];
  }

  lemma {:induction false} SizeGrows(texts: seq<seq<byte>>, i: nat)
    requires i <= |texts|
    ensures Size(texts[..i]) <= Size(texts)
    decreases |texts| - i
  {
    if i == |texts| {
      assert texts[..i] == texts;
    } else {
      SizeStep(texts, i);
      SizeGrows(texts, i + 1);
    }
  }

  /** Strings are laid out downwards from `top`, each right below the one before. */
  function Address(top: int, texts: seq<seq<byte>>, i: nat): int
    requires i < |texts|
  {
    top - Size(texts[..i + 1])
  }

  predicate AreAddresses(addresses: seq<nat>, top: int, texts: seq<seq<byte>>) {
    |addresses| == |texts| && forall i | 0 <= i < |texts| :: addresses[i] == Address(top, texts, i)
  }

  /** A program that follows the pointer finds the text and a terminating zero. */
  ghost predicate TextAt(mem: Memory, phys: seq<nat>, address: nat, text: seq<byte>)
    requires Frames16(phys)
  {
    && STACK_BOTTOM <= address && address + |text| < STACK_TOP
    && (forall k | 0 <= k < |text| :: UserByte(mem, phys, address + k) == text[k])
    && UserByte(mem, phys, address + |text|) == 0
  }

  ghost predicate TextsAt(mem: Memory, phys: seq<nat>, addresses: seq<nat>, texts: seq<seq<byte>>)
    requires Frames16(phys)
  {
    |addresses| == |texts| && forall i | 0 <= i < |texts| :: TextAt(mem, phys, addresses[i], texts[i])
  }

  /** Nothing changed at or above an address, nor outside the stack's frames. */
  ghost predicate KeptAbove(mem: Memory, after: Memory, phys: seq<nat>, bound: nat)
    requires Frames16(phys)
  {
    && (forall a: nat | OnStack(a) && bound <= a :: UserByte(after, phys, a) == UserByte(mem, phys, a))
    && forall a: nat | OffFrames(phys, a) :: after(a) == mem(a)
  }

  lemma {:induction false} StoreHits(phys: seq<nat>, u: nat, n: nat, x: nat) returns (a: nat)
    requires Frames16(phys) && OnStack(u) && OnStack(u + n) && Whole(phys, u, n)
    requires Physical(phys, u) <= x <= Physical(phys, u) + n
    ensures u <= a <= u + n && Physical(phys, a) == x
  {
    hide Physical;
    a := u + (x - Physical(phys, u));
  }

  /** What is written to a whole range shows nowhere else. */
  lemma {:induction false} StoreKeepsAbove(mem: Memory, phys: seq<nat>, u: nat, bytes: seq<byte>)
    requires Frames16(phys) && OnStack(u) && bytes != [] && u + |bytes| <= STACK_TOP && Whole(phys, u, |bytes| - 1)
    ensures KeptAbove(mem, Stored(mem, Physical(phys, u), bytes), phys, u + |bytes|)
  {
    hide Physical, Whole, OffFrames, Frames16;
    var at := Physical(phys, u);
    forall a: nat | OnStack(a) && u + |bytes| <= a
      ensures UserByte(Stored(mem, at, bytes), phys, a) == UserByte(mem, phys, a)
    {
      if at <= Physical(phys, a) < at + |bytes| {
        var b := StoreHits(phys, u, |bytes| - 1, Physical(phys, a));
        PhysicalIsInjective(phys, a, b);
      }
    }
    forall a: nat | OffFrames(phys, a)
      ensures Stored(mem, at, bytes)(a) == mem(a)
    {
      if at <= a < at + |bytes| {
        var b := StoreHits(phys, u, |bytes| - 1, a);
        PhysicalIsInFrames(phys, b);
      }
    }
  }

  lemma {:induction false} StoredText(mem: Memory, phys: seq<nat>, u: nat, text: seq<byte>)
    requires Frames16(phys) && OnStack(u) && u + |text| < STACK_TOP && Whole(phys, u, |text|)
    ensures TextAt(Stored(mem, Physical(phys, u), text + [0]), phys, u, text)
  {
    hide Physical;
  }

  lemma {:induction false} TextsKept(mem: Memory, after: Memory, phys: seq<nat>, bound: nat, addresses: seq<nat>, texts: seq<seq<byte>>)
    requires Frames16(phys) && KeptAbove(mem, after, phys, bound) && TextsAt(mem, phys, addresses, texts)
    requires forall i | 0 <= i < |addresses| :: bound <= addresses[i]
    ensures TextsAt(after, phys, addresses, texts)
  {
    hide UserByte;
    forall i | 0 <= i < |texts|
      ensures TextAt(after, phys, addresses[i], texts[i])
    {
      assert TextAt(mem, phys, addresses[i], texts[i]);
    }
  }

  lemma {:induction false} KeptAboveOn(mem: Memory, now: Memory, after: Memory, phys: seq<nat>, bound: nat, lower: nat)
    requires Frames16(phys) && KeptAbove(mem, now, phys, bound) && KeptAbove(now, after, phys, lower) && lower <= bound
    ensures KeptAbove(mem, after, phys, bound)
  {
    hide UserByte;
  }

  /** A write through the frame of the address; an address off the stack is skipped. */
  function Written(mem: Memory, phys: seq<nat>, address: int, bytes: seq<byte>): Memory
    requires Frames16(phys)
  {
    if OnStack(address) then Stored(mem, Physical(phys, address), bytes) else mem
  }

  /** Memory once the strings are written downwards from `top`. */
  function StringsStored(mem: Memory, phys: seq<nat>, top: int, texts: seq<seq<byte>>): Memory
    requires Frames16(phys)
  {
    if texts == [] then mem else
    var n := |texts| - 1;
    Written(StringsStored(mem, phys, top, texts[..n]), phys, top - Size(texts), texts[n] + [0])
  }

  lemma {:induction false} NextStored(mem: Memory, phys: seq<nat>, top: int, texts: seq<seq<byte>>, i: nat)
    requires Frames16(phys) && i < |texts|
    ensures StringsStored(mem, phys, top, texts[..i + 1]) ==
              Written(StringsStored(mem, phys, top, texts[..i]), phys, Address(top, texts, i), texts[i] + [0])
  {
    hide Written, Size;
    assert texts[..i + 1][..i] == texts[..i];
  }

  /** Each string that lies on the stack, with its zero, lies side by side in physical memory. */
  predicate StringsWhole(phys: seq<nat>, top: int, texts: seq<seq<byte>>)
    requires Frames16(phys)
  {
    forall i | 0 <= i < |texts| && OnStack(Address(top, texts, i)) && OnStack(Address(top, texts, i) + |texts[i]|) ::
      Whole(phys, Address(top, texts, i), |texts[i]|)
  }

  lemma {:induction false} AddressInPlace(top: int, texts: seq<seq<byte>>, i: nat)
    requires i < |texts| && top <= STACK_TOP
    ensures Address(top, texts, i) + |texts[i]| < top - Size(texts[..i]) <= top
  {
    SizeStep(texts, i);
  }

  lemma {:induction false} StoredKeeps(mem: Memory, phys: seq<nat>, top: nat, texts: seq<seq<byte>>, n: nat)
    requires Frames16(phys) && top <= STACK_TOP && StringsWhole(phys, top, texts) && n <= |texts|
    ensures KeptAbove(mem, StringsStored(mem, phys, top, texts[..n]), phys, top)
  {
    hide Physical, UserByte, Size, Whole, OffFrames;
    if n > 0 {
      var i := n - 1;
      StoredKeeps(mem, phys, top, texts, i);
      NextStored(mem, phys, top, texts, i);
      AddressInPlace(top, texts, i);
      var u, now := Address(top, texts, i), StringsStored(mem, phys, top, texts[..i]);
      if OnStack(u) {
        StoreKeepsAbove(now, phys, u, texts[i] + [0]);
        KeptAboveOn(mem, now, StringsStored(mem, phys, top, texts[..n]), phys, top, u + |texts[i]| + 1);
      }
    } else {
      assert texts[..0] == [];
    }
  }

  /** Every string is found where it was put. */
  ghost predicate StringsFound(mem: Memory, phys: seq<nat>, top: int, texts: seq<seq<byte>>)
    requires Frames16(phys)
  {
    forall i | 0 <= i < |texts| :: FoundAt(mem, phys, Address(top, texts, i), texts[i])
  }

  ghost predicate FoundAt(mem: Memory, phys: seq<nat>, address: int, text: seq<byte>)
    requires Frames16(phys)
  {
    0 <= address && TextAt(mem, phys, address, text)
  }

  lemma {:induction false} StoredAreFound(mem: Memory, phys: seq<nat>, top: nat, texts: seq<seq<byte>>, n: nat)
    requires Frames16(phys) && top <= STACK_TOP && StringsWhole(phys, top, texts) && n <= |texts|
    requires STACK_BOTTOM <= top - Size(texts)
    ensures forall i | 0 <= i < n :: FoundAt(StringsStored(mem, phys, top, texts[..n]), phys, Address(top, texts, i), texts[i])
  {
    hide Physical, UserByte, Size, Whole, OffFrames, TextAt;
    if n > 0 {
      var last := n - 1;
      StoredAreFound(mem, phys, top, texts, last);
      NextStored(mem, phys, top, texts, last);
      AddressInPlace(top, texts, last);
      SizeGrows(texts, n);
      var u, now, after := Address(top, texts, last), StringsStored(mem, phys, top, texts[..last]), StringsStored(mem, phys, top, texts[..n]);
      assert OnStack(u);
      StoredText(now, phys, u, texts[last]);
      StoreKeepsAbove(now, phys, u, texts[last] + [0]);
      forall i | 0 <= i < last
        ensures FoundAt(after, phys, Address(top, texts, i), texts[i])
      {
        AddressesDescend(top, texts, i, last);
        TextKept(now, after, phys, u + |texts[last]| + 1, Address(top, texts, i), texts[i]);
      }
    }
  }

  lemma {:induction false} AddressesDescend(top: int, texts: seq<seq<byte>>, i: nat, j: nat)
    requires i < j < |texts|
    ensures Address(top, texts, j) + |texts[j]| + 1 <= Address(top, texts, i)
  {
    hide Size;
    SizeStep(texts, j);
    assert texts[..j][..i + 1] == texts[..i + 1];
    SizeGrows(texts[..j], i + 1);
  }

  lemma {:induction false} TextKept(mem: Memory, after: Memory, phys: seq<nat>, bound: nat, address: nat, text: seq<byte>)
    requires Frames16(phys) && KeptAbove(mem, after, phys, bound) && bound <= address && TextAt(mem, phys, address, text)
    ensures TextAt(after, phys, address, text)
  {
    hide UserByte, OffFrames;
  }

  // ------------------------------------------------------------------ the layout

  /** Key and value pairs, in the order they appear in memory. */
  function Auxiliary(entry: nat, headersAt: nat, headerCount: nat): seq<(nat, nat)> {
    [(3, headersAt), (4, 56), (5, headerCount), (6, 4096), (7, 0), (8, 0), (9, entry), (11, 0), (12, 0), (13, 0), (14, 0),
     (23, 0), (25, STACK_TOP - 16), (0, 0)]
  }

  function Flat(pairs: seq<(nat, nat)>): (words: seq<nat>)
    ensures |words| == 2 * |pairs|
  {
    if pairs == [] then [] else [pairs[0].0, pairs[0].1] + Flat(pairs[1..])
  }

  function Padding(argc: nat, envc: nat): (words: seq<nat>)
    ensures (1 + (argc + 1) + (envc + 1) + 28 + |words|) % 2 == 0 && |words| <= 1
  {
    if (1 + (argc + 1) + (envc + 1) + 28) % 2 != 0 then [0] else []
  }

  function Layout(argv: seq<nat>, envp: seq<nat>, pairs: seq<(nat, nat)>): seq<nat> {
    [|argv|] + argv + [0] + envp + [0] + Flat(pairs) + Padding(|argv|, |envp|)
  }

  /** The lowest string byte, before rounding down to a word. */
  function StringBottom(argv: seq<seq<byte>>, envp: seq<seq<byte>>): int {
    STACK_TOP - 16 - Size(envp) - Size(argv)
  }

  function WordCount(argc: nat, envc: nat): nat {
    1 + (argc + 1) + (envc + 1) + 28 + |Padding(argc, envc)|
  }

  function StackPointer(argv: seq<seq<byte>>, envp: seq<seq<byte>>): int {
    StringBottom(argv, envp) - StringBottom(argv, envp) % 8 - 8 * WordCount(|argv|, |envp|)
  }

  predicate Fits(argv: seq<seq<byte>>, envp: seq<seq<byte>>) {
    StackPointer(argv, envp) >= STACK_BOTTOM
  }

  /** Word-aligned, and a multiple of sixteen below the rounded bottom of the strings. */
  lemma {:induction false} StackPointerIsAligned(argv: seq<seq<byte>>, envp: seq<seq<byte>>)
    ensures StackPointer(argv, envp) % 8 == 0
    ensures (StringBottom(argv, envp) - StringBottom(argv, envp) % 8 - StackPointer(argv, envp)) % 16 == 0
  {
    var half := WordCount(|argv|, |envp|) / 2;
    assert WordCount(|argv|, |envp|) == 2 * half;
  }

  /** The psABI's 16-byte alignment holds exactly when the strings take an even number of words. */
  lemma {:induction false} AlignedTo16Iff(argv: seq<seq<byte>>, envp: seq<seq<byte>>)
    ensures StackPointer(argv, envp) % 16 == 0 <==> (Size(envp) + Size(argv) + 7) / 8 % 2 == 0
  {
    hide Size;
    var n, half := Size(envp) + Size(argv), WordCount(|argv|, |envp|) / 2;
    assert WordCount(|argv|, |envp|) == 2 * half;
    assert StringBottom(argv, envp) == STACK_TOP - 16 - n;
    RoundedBottom(n);
    EvenWords((n + 7) / 8, half);
  }

  lemma {:induction false} EvenWords(words: nat, half: nat)
    ensures (STACK_TOP - 16 - 8 * words - 8 * (2 * half)) % 16 == 0 <==> words % 2 == 0
  {
    if words % 2 == 0 {
      assert STACK_TOP - 16 - 8 * words - 8 * (2 * half) == 16 * (STACK_TOP / 16 - 1 - words / 2 - half);
    } else {
      assert STACK_TOP - 16 - 8 * words - 8 * (2 * half) == 16 * (STACK_TOP / 16 - 2 - words / 2 - half) + 8;
    }
  }

  lemma {:induction false} RoundedBottom(n: nat)
    ensures var b := STACK_TOP - 16 - n; b - b % 8 == STACK_TOP - 16 - 8 * ((n + 7) / 8)
  {
  }

  /** One seven-letter argument is enough to miss it. */
  lemma {:induction false} NotAlways16Aligned()
    ensures exists argv: seq<seq<byte>> :: Fits(argv, []) && StackPointer(argv, []) % 16 == 8
  {
    var text: seq<byte> := [105, 110, 105, 116, 105, 110, 105];
    var argv := [text];
    assert argv[..0] == [];
    assert Size(argv) == 8 && Size([]) == 0;
    assert StackPointer(argv, []) == STACK_TOP - 24 - 8 * 32;
    assert Fits(argv, []);
  }

  /** Every string of a program lies side by side in physical memory, with its zero. */
  predicate AllWhole(phys: seq<nat>, argv: seq<seq<byte>>, envp: seq<seq<byte>>)
    requires Frames16(phys)
  {
    StringsWhole(phys, STACK_TOP - 16, envp) && StringsWhole(phys, STACK_TOP - 16 - Size(envp), argv)
  }

  /** Sixteen consecutive frames hold any strings whole. */
  lemma {:induction false} ConsecutiveHoldsAll(phys: seq<nat>, argv: seq<seq<byte>>, envp: seq<seq<byte>>)
    requires Frames16(phys) && Consecutive(phys)
    ensures AllWhole(phys, argv, envp)
  {
    ConsecutiveHolds(phys, STACK_TOP - 16, envp);
    ConsecutiveHolds(phys, STACK_TOP - 16 - Size(envp), argv);
  }

  lemma {:induction false} ConsecutiveHolds(phys: seq<nat>, top: int, texts: seq<seq<byte>>)
    requires Frames16(phys) && Consecutive(phys)
    ensures StringsWhole(phys, top, texts)
  {
    hide Whole, Size;
    forall i | 0 <= i < |texts| && OnStack(Address(top, texts, i)) && OnStack(Address(top, texts, i) + |texts[i]|)
      ensures Whole(phys, Address(top, texts, i), |texts[i]|)
    {
      ConsecutiveIsWhole(phys, Address(top, texts, i), |texts[i]|);
    }
  }

  // ------------------------------------------------------------------- the writer

  const RANDOM: seq<byte> := [48, 49, 50, 51, 52, 53, 54, 55, 56, 57, 97, 98, 99, 100, 101, 102]

  /** Memory with the random bytes and all strings of a program. */
  function StringsIn(mem: Memory, phys: seq<nat>, argv: seq<seq<byte>>, envp: seq<seq<byte>>): Memory
    requires Frames16(phys)
  {
    var withRandom := Written(mem, phys, STACK_TOP - 16, RANDOM);
    StringsStored(StringsStored(withRandom, phys, STACK_TOP - 16, envp), phys, STACK_TOP - 16 - Size(envp), argv)
  }

  lemma {:induction false} RandomIsKept(mem: Memory, phys: seq<nat>)
    requires Frames16(phys)
    ensures KeptAbove(mem, Written(mem, phys, STACK_TOP - 16, RANDOM), phys, STACK_TOP)
  {
    hide Physical, KeptAbove;
    assert Whole(phys, STACK_TOP - 16, 15) by { LastBytesAreWhole(phys); }
    StoreKeepsAbove(mem, phys, STACK_TOP - 16, RANDOM);
  }

  lemma {:induction false} LastBytesAreWhole(phys: seq<nat>)
    requires Frames16(phys)
    ensures Whole(phys, STACK_TOP - 16, 15)
  {
    assert STACK_BYTES == 16 * PAGE_BYTES;
  }

  class StackWriter {
    var memory: Memory
    var sp: nat
    const phys: seq<nat>
    /** The words written so far, lowest first. */
    ghost var words: seq<nat>

    constructor (memory: Memory, phys: seq<nat>)
      ensures this.memory == memory && this.phys == phys && sp == STACK_TOP
    {
      this.memory, this.phys, sp, words := memory, phys, STACK_TOP, [];
    }

    /** Writes through the frame of the address; an address off the stack is skipped. */
    method Write(address: nat, bytes: seq<byte>)
      requires Frames16(phys)
      modifies this`memory
      ensures memory == Written(old(memory), phys, address, bytes)
    {
      if OnStack(address) {
        memory := Stored(memory, Physical(phys, address), bytes);
      }
    }

    /** The strings and their addresses; what would lie below the stack is skipped. */
    method PushStrings(texts: seq<seq<byte>>) returns (addresses: seq<nat>)
      requires Frames16(phys) && Size(texts) <= sp <= STACK_TOP
      modifies this`memory, this`sp
      ensures sp == old(sp) - Size(texts) && AreAddresses(addresses, old(sp), texts)
      ensures forall i | 0 <= i < |addresses| :: sp <= addresses[i]
      ensures memory == StringsStored(old(memory), phys, old(sp), texts)
      ensures StringsWhole(phys, old(sp), texts) && STACK_BOTTOM <= sp ==> TextsAt(memory, phys, addresses, texts)
      ensures StringsWhole(phys, old(sp), texts) ==> KeptAbove(old(memory), memory, phys, old(sp))
    {
      hide Size, Physical, UserByte, TextAt, Whole, OffFrames, KeptAbove, StringsWhole;
      addresses := [];
      assert Size(texts[..0]) == 0 by { NoSize(texts); }
      assert texts[..0] == [];
      for i := 0 to |texts|
        invariant sp == old(sp) - Size(texts[..i]) && sp <= STACK_TOP
        invariant |addresses| == i && forall j | 0 <= j < i :: addresses[j] == Address(old(sp), texts, j) && sp <= addresses[j]
        invariant memory == StringsStored(old(memory), phys, old(sp), texts[..i])
      {
        SizeStep(texts, i);
        SizeGrows(texts, i + 1);
        NextStored(old(memory), phys, old(sp), texts, i);
        var text := texts[i];
        sp := sp - (|text| + 1);
        Write(sp, text + [0]);
        addresses := addresses + [sp];
      }
      assert texts[..|texts|] == texts;
      if StringsWhole(phys, old(sp), texts) {
        StoredKeeps(old(memory), phys, old(sp), texts, |texts|);
        if STACK_BOTTOM <= sp {
          StoredAreFound(old(memory), phys, old(sp), texts, |texts|);
        }
      }
    }

    ghost predicate Holding()
      requires Frames16(phys)
      reads this
    {
      WordsAt(memory, phys, sp, words)
    }

    method PushWord(v: nat)
      requires Frames16(phys) && 8 <= sp <= STACK_TOP && v < WORD
      modifies this
      ensures words == [v] + old(words) && sp == old(sp) - 8
      ensures old(Holding()) && STACK_BOTTOM <= sp ==> Holding()
      ensures old(sp) % 8 == 0 ==> KeptAbove(old(memory), memory, phys, old(sp))
    {
      hide UserWord, Physical, UserByte, Le64, Whole, OffFrames;
      if Holding() && STACK_BOTTOM + 8 <= sp {
        WordPushed(memory, phys, sp, words, v);
      }
      sp := sp - 8;
      if STACK_BOTTOM <= sp && sp % 8 == 0 {
        WordIsWhole(phys, sp);
        StoreKeepsAbove(memory, phys, sp, Le64(v));
      }
      Write(sp, Le64(v));
      words := [v] + words;
    }

    /** Pushes the last word first, so that they end up in order. */
    method PushAll(vs: seq<nat>)
      requires Frames16(phys) && 8 * |vs| <= sp <= STACK_TOP && forall i | 0 <= i < |vs| :: vs[i] < WORD
      modifies this
      ensures words == vs + old(words) && sp == old(sp) - 8 * |vs|
      ensures old(Holding()) && STACK_BOTTOM <= sp ==> Holding()
      ensures old(sp) % 8 == 0 ==> KeptAbove(old(memory), memory, phys, old(sp))
    {
      hide WordsAt, UserByte, OffFrames, KeptAbove, Frames16;
      KeptSelf(memory, phys, sp);
      for i := |vs| downto 0
        invariant words == vs[i..] + old(words) && sp == old(sp) - 8 * (|vs| - i)
        invariant old(Holding()) && STACK_BOTTOM <= sp ==> Holding()
        invariant old(sp) % 8 == 0 ==> KeptAbove(old(memory), memory, phys, old(sp))
      {
        ghost var before, bound := memory, sp;
        assert vs[i..] == [vs[i]] + vs[i + 1..];
        PushWord(vs[i]);
        if old(sp) % 8 == 0 {
          KeptAboveOn(old(memory), before, memory, phys, old(sp), bound);
        }
      }
    }

    method PushPairs(pairs: seq<(nat, nat)>)
      requires Frames16(phys) && 16 * |pairs| <= sp <= STACK_TOP
      requires forall i | 0 <= i < |pairs| :: pairs[i].0 < WORD && pairs[i].1 < WORD
      modifies this
      ensures words == Flat(pairs) + old(words) && sp == old(sp) - 16 * |pairs|
      ensures old(Holding()) && STACK_BOTTOM <= sp ==> Holding()
      ensures old(sp) % 8 == 0 ==> KeptAbove(old(memory), memory, phys, old(sp))
    {
      hide WordsAt, UserByte, OffFrames, KeptAbove, Frames16, Flat;
      KeptSelf(memory, phys, sp);
      assert pairs[|pairs|..] == [] && Flat([]) + words == words by { NoPairs(words); }
      for i := |pairs| downto 0
        invariant words == Flat(pairs[i..]) + old(words) && sp == old(sp) - 16 * (|pairs| - i)
        invariant old(Holding()) && STACK_BOTTOM <= sp ==> Holding()
        invariant old(sp) % 8 == 0 ==> KeptAbove(old(memory), memory, phys, old(sp))
      {
        ghost var before, bound := memory, sp;
        FlatStep(pairs, i, old(words));
        PushAll([pairs[i].0, pairs[i].1]);
        if old(sp) % 8 == 0 {
          KeptAboveOn(old(memory), before, memory, phys, old(sp), bound);
        }
      }
      assert pairs[0..] == pairs;
    }

    /**
     The whole stack: random bytes, environment strings, argument strings, then the words
     from the auxiliary vector down to the argument count. The pointer returned is the same
     whether or not everything found room; everything is in place if and only if it did.
     Above the words memory is that of the strings alone.
     */
    method Setup(entry: nat, headersAt: nat, headerCount: nat, argv: seq<seq<byte>>, envp: seq<seq<byte>>)
      returns (argvAt: seq<nat>, envpAt: seq<nat>)
      requires Frames16(phys) && sp == STACK_TOP && 0 <= StackPointer(argv, envp)
      requires entry < WORD && headersAt < WORD && headerCount < WORD
      modifies this
      ensures sp == StackPointer(argv, envp) && 0 <= StringBottom(argv, envp)
      ensures AreAddresses(envpAt, STACK_TOP - 16, envp) && AreAddresses(argvAt, STACK_TOP - 16 - Size(envp), argv)
      ensures WordsAt(memory, phys, sp, Layout(argvAt, envpAt, Auxiliary(entry, headersAt, headerCount))) <==> Fits(argv, envp)
      ensures forall i | 0 <= i < |envpAt| :: envpAt[i] != 0
      ensures KeptAbove(StringsIn(old(memory), phys, argv, envp), memory, phys, StringBottom(argv, envp))
      ensures AllWhole(phys, argv, envp) && Fits(argv, envp) ==>
                TextsAt(memory, phys, argvAt, argv) && TextsAt(memory, phys, envpAt, envp)
      ensures AllWhole(phys, argv, envp) ==> KeptAbove(old(memory), memory, phys, STACK_TOP)
    {
      hide WordsAt, UserByte, TextsAt, KeptAbove, Size, AreAddresses, Physical, Auxiliary, Flat, Whole, StringsWhole, StringsStored, OffFrames;
      PointerFacts(argv, envp);
      sp := sp - 16;
      Write(sp, RANDOM);
      ghost var withRandom := memory;
      RandomIsKept(old(memory), phys);
      envpAt := PushStrings(envp);
      ghost var withEnvp, envpBottom := memory, sp;
      argvAt := PushStrings(argv);
      ghost var withStrings, bottom := memory, sp;
      AddressesBelow(argvAt, envpBottom, argv);
      AddressesBelow(envpAt, STACK_TOP - 16, envp);
      sp := sp - sp % 8;
      PushWords(entry, headersAt, headerCount, argvAt, envpAt, withStrings, bottom);
      if sp < STACK_BOTTOM {
        PointerBelow(memory, phys, sp, Layout(argvAt, envpAt, Auxiliary(entry, headersAt, headerCount)));
      }
      if AllWhole(phys, argv, envp) {
        StringsKept(withEnvp, withStrings, memory, phys, envpBottom, bottom, argvAt, argv, envpAt, envp);
        KeptAllAlong(old(memory), withRandom, withEnvp, withStrings, memory, phys, envpBottom, bottom);
      }
    }

    /** The words, from the padding down. */
    method PushWords(entry: nat, headersAt: nat, headerCount: nat, argv: seq<nat>, envp: seq<nat>, ghost base: Memory, ghost bottom: nat)
      requires Frames16(phys) && sp % 8 == 0 && 8 * WordCount(|argv|, |envp|) <= sp <= bottom <= STACK_TOP && memory == base
      requires entry < WORD && headersAt < WORD && headerCount < WORD
      requires |argv| < WORD && forall i | 0 <= i < |argv| :: argv[i] < WORD
      requires forall i | 0 <= i < |envp| :: envp[i] < WORD
      modifies this
      ensures sp == old(sp) - 8 * WordCount(|argv|, |envp|)
      ensures STACK_BOTTOM <= sp ==> WordsAt(memory, phys, sp, Layout(argv, envp, Auxiliary(entry, headersAt, headerCount)))
      ensures KeptAbove(base, memory, phys, bottom)
    {
      hide WordsAt, UserByte, KeptAbove, Auxiliary, Flat;
      ghost var rounded := sp;
      words := [];
      NoWords(memory, phys, sp);
      assert Padding(|argv|, |envp|) + [] == Padding(|argv|, |envp|);
      PushAll(Padding(|argv|, |envp|));
      KeptHigher(base, memory, phys, rounded, bottom);
      PushRest(entry, headersAt, headerCount, argv, envp, base, bottom);
    }

    /** Auxiliary vector, environment pointers, argument pointers and argument count, above the padding. */
    method PushRest(entry: nat, headersAt: nat, headerCount: nat, argv: seq<nat>, envp: seq<nat>, ghost base: Memory, ghost bottom: nat)
      requires Frames16(phys) && sp % 8 == 0 && 8 * (1 + (|argv| + 1) + (|envp| + 1) + 28) <= sp <= bottom <= STACK_TOP
      requires entry < WORD && headersAt < WORD && headerCount < WORD
      requires |argv| < WORD && forall i | 0 <= i < |argv| :: argv[i] < WORD
      requires forall i | 0 <= i < |envp| :: envp[i] < WORD
      requires KeptAbove(base, memory, phys, bottom)
      modifies this
      ensures sp == old(sp) - 8 * (1 + (|argv| + 1) + (|envp| + 1) + 28)
      ensures words == [|argv|] + argv + [0] + envp + [0] + Flat(Auxiliary(entry, headersAt, headerCount)) + old(words)
      ensures old(Holding()) && STACK_BOTTOM <= sp ==> Holding()
      ensures KeptAbove(base, memory, phys, bottom)
    {
      hide WordsAt, UserByte, Flat, KeptAbove, Auxiliary, Physical, OffFrames;
      ghost var m0, s0, pairs := memory, sp, Auxiliary(entry, headersAt, headerCount);
      AuxiliaryFits(entry, headersAt, headerCount);
      JoinLayout(|argv|, argv, envp, Flat(pairs), words);
      PushPairs(Auxiliary(entry, headersAt, headerCount));
      KeepOn(base, m0, memory, phys, bottom, s0);
      PushPointers(argv, envp, base, bottom);
    }

    method PushPointers(argv: seq<nat>, envp: seq<nat>, ghost base: Memory, ghost bottom: nat)
      requires Frames16(phys) && sp % 8 == 0 && 8 * (1 + (|argv| + 1) + (|envp| + 1)) <= sp <= bottom <= STACK_TOP
      requires |argv| < WORD && forall i | 0 <= i < |argv| :: argv[i] < WORD
      requires forall i | 0 <= i < |envp| :: envp[i] < WORD
      requires KeptAbove(base, memory, phys, bottom)
      modifies this
      ensures sp == old(sp) - 8 * (1 + (|argv| + 1) + (|envp| + 1))
      ensures words == [|argv|] + ((argv + [0]) + ((envp + [0]) + old(words)))
      ensures old(Holding()) && STACK_BOTTOM <= sp ==> Holding()
      ensures KeptAbove(base, memory, phys, bottom)
    {
      hide WordsAt, UserByte, KeptAbove, Physical, OffFrames;
      ghost var m1, s1 := memory, sp;
      PushAll(envp + [0]);
      KeepOn(base, m1, memory, phys, bottom, s1);
      ghost var m2, s2 := memory, sp;
      PushAll(argv + [0]);
      KeepOn(base, m2, memory, phys, bottom, s2);
      ghost var m3, s3 := memory, sp;
      PushWord(|argv|);
      KeepOn(base, m3, memory, phys, bottom, s3);
    }
  }

  lemma {:induction false} KeptSelf(mem: Memory, phys: seq<nat>, bound: nat)
    requires Frames16(phys)
    ensures KeptAbove(mem, mem, phys, bound)
  {
  }

  lemma {:induction false} NoPairs(words: seq<nat>)
    ensures Flat([]) + words == words
  {
  }

  lemma {:induction false} FlatStep(pairs: seq<(nat, nat)>, i: nat, words: seq<nat>)
    requires i < |pairs|
    ensures Flat(pairs[i..]) + words == [pairs[i].0, pairs[i].1] + (Flat(pairs[i + 1..]) + words)
  {
    assert pairs[i..][1..] == pairs[i + 1..];
  }

  lemma {:induction false} PointerBelow(mem: Memory, phys: seq<nat>, sp: nat, words: seq<nat>)
    requires Frames16(phys) && sp < STACK_BOTTOM
    ensures !WordsAt(mem, phys, sp, words)
  {
  }

  lemma {:induction false} StringsKept(withEnvp: Memory, withStrings: Memory, after: Memory, phys: seq<nat>, envpBottom: nat, bottom: nat,
                                       argvAt: seq<nat>, argv: seq<seq<byte>>, envpAt: seq<nat>, envp: seq<seq<byte>>)
    requires Frames16(phys) && bottom <= envpBottom
    requires KeptAbove(withEnvp, withStrings, phys, envpBottom) && KeptAbove(withStrings, after, phys, bottom)
    requires forall i | 0 <= i < |envpAt| :: envpBottom <= envpAt[i]
    requires forall i | 0 <= i < |argvAt| :: bottom <= argvAt[i]
    ensures TextsAt(withEnvp, phys, envpAt, envp) ==> TextsAt(after, phys, envpAt, envp)
    ensures TextsAt(withStrings, phys, argvAt, argv) ==> TextsAt(after, phys, argvAt, argv)
  {
    hide UserByte, TextsAt;
    if TextsAt(withEnvp, phys, envpAt, envp) {
      TextsKept(withEnvp, withStrings, phys, envpBottom, envpAt, envp);
      TextsKept(withStrings, after, phys, bottom, envpAt, envp);
    }
    if TextsAt(withStrings, phys, argvAt, argv) {
      TextsKept(withStrings, after, phys, bottom, argvAt, argv);
    }
  }

  lemma {:induction false} KeptAllAlong(mem: Memory, withRandom: Memory, withEnvp: Memory, withStrings: Memory, after: Memory,
                                        phys: seq<nat>, envpBottom: nat, bottom: nat)
    requires Frames16(phys) && bottom <= envpBottom <= STACK_TOP
    requires KeptAbove(mem, withRandom, phys, STACK_TOP) && KeptAbove(withRandom, withEnvp, phys, STACK_TOP - 16)
    requires KeptAbove(withEnvp, withStrings, phys, envpBottom) && KeptAbove(withStrings, after, phys, bottom)
    ensures KeptAbove(mem, after, phys, STACK_TOP)
  {
    hide UserByte;
    KeptAboveOn(mem, withRandom, withEnvp, phys, STACK_TOP, STACK_TOP - 16);
    KeptAboveOn(mem, withEnvp, withStrings, phys, STACK_TOP, envpBottom);
    KeptAboveOn(mem, withStrings, after, phys, STACK_TOP, bottom);
  }

  lemma {:induction false} AuxiliaryFits(entry: nat, headersAt: nat, headerCount: nat)
    requires entry < WORD && headersAt < WORD && headerCount < WORD
    ensures var pairs := Auxiliary(entry, headersAt, headerCount);
            |pairs| == 14 && forall i | 0 <= i < |pairs| :: pairs[i].0 < WORD && pairs[i].1 < WORD
  {
  }

  lemma {:induction false} JoinLayout(argc: nat, argv: seq<nat>, envp: seq<nat>, pairs: seq<nat>, rest: seq<nat>)
    ensures [argc] + ((argv + [0]) + ((envp + [0]) + (pairs + rest))) == [argc] + argv + [0] + envp + [0] + pairs + rest
  {
  }

  lemma {:induction false} KeepOn(base: Memory, now: Memory, after: Memory, phys: seq<nat>, bottom: nat, lower: nat)
    requires Frames16(phys) && lower <= bottom
    requires KeptAbove(base, now, phys, bottom) && KeptAbove(now, after, phys, lower)
    ensures KeptAbove(base, after, phys, bottom)
  {
    hide UserByte;
  }

  lemma {:induction false} KeptHigher(mem: Memory, after: Memory, phys: seq<nat>, lower: nat, bottom: nat)
    requires Frames16(phys) && lower <= bottom && KeptAbove(mem, after, phys, lower)
    ensures KeptAbove(mem, after, phys, bottom)
  {
    hide UserByte;
  }

  lemma {:induction false} PointerFacts(argv: seq<seq<byte>>, envp: seq<seq<byte>>)
    requires 0 <= StackPointer(argv, envp)
    ensures 16 + Size(envp) + Size(argv) < STACK_TOP
    ensures var b := StringBottom(argv, envp); b >= 0 && 8 * WordCount(|argv|, |envp|) <= b - b % 8
  {
    hide Size;
  }

  lemma {:induction false} AddressesBelow(addresses: seq<nat>, top: nat, texts: seq<seq<byte>>)
    requires AreAddresses(addresses, top, texts) && top <= STACK_TOP && Size(texts) < top
    ensures |addresses| == |texts| && forall i | 0 <= i < |addresses| :: 0 < addresses[i] < WORD
  {
    hide Size;
    forall i | 0 <= i < |addresses|
      ensures 0 < addresses[i] < WORD
    {
      SizeGrows(texts, i + 1);
    }
  }

  lemma {:induction false} NoWords(mem: Memory, phys: seq<nat>, sp: nat)
    requires Frames16(phys)
    ensures sp % 8 == 0 && STACK_BOTTOM <= sp <= STACK_TOP ==> WordsAt(mem, phys, sp, [])
  {
  }

  lemma {:induction false} NoSize(texts: seq<seq<byte>>)
    ensures Size(texts[..0]) == 0
  {
    assert texts[..0] == [];
  }

  // ------------------------------------------------- exactly which strings are found

  predicate SameSizes(texts: seq<seq<byte>>, other: seq<seq<byte>>) {
    |other| == |texts| && forall i | 0 <= i < |texts| :: |other[i]| == |texts[i]|
  }

  lemma {:induction false} SizeOfSame(texts: seq<seq<byte>>, other: seq<seq<byte>>, n: nat)
    requires SameSizes(texts, other) && n <= |texts|
    ensures Size(other[..n]) == Size(texts[..n])
  {
    if n > 0 {
      SizeOfSame(texts, other, n - 1);
      SizeStep(texts, n - 1);
      SizeStep(other, n - 1);
    } else {
      assert texts[..0] == [] && other[..0] == [];
    }
  }

  lemma {:induction false} SizesDecide(phys: seq<nat>, top: int, texts: seq<seq<byte>>, other: seq<seq<byte>>)
    requires Frames16(phys) && SameSizes(texts, other)
    ensures Size(other) == Size(texts)
    ensures forall i | 0 <= i < |texts| :: Address(top, other, i) == Address(top, texts, i)
    ensures StringsWhole(phys, top, texts) ==> StringsWhole(phys, top, other)
  {
    hide Size, Whole, Frames16;
    forall i | 0 <= i < |texts|
      ensures Address(top, other, i) == Address(top, texts, i)
    {
      SizeOfSame(texts, other, i + 1);
    }
    SizeOfSame(texts, other, |texts|);
    assert texts[..|texts|] == texts && other[..|texts|] == other;
  }

  /** The program finds its arguments and its environment. */
  ghost predicate AllFound(mem: Memory, phys: seq<nat>, argv: seq<seq<byte>>, envp: seq<seq<byte>>)
    requires Frames16(phys)
  {
    && StringsFound(StringsIn(mem, phys, argv, envp), phys, STACK_TOP - 16 - Size(envp), argv)
    && StringsFound(StringsIn(mem, phys, argv, envp), phys, STACK_TOP - 16, envp)
  }

  /** It finds them whatever strings of these sizes it is given. */
  ghost predicate AlwaysFound(mem: Memory, phys: seq<nat>, argv: seq<seq<byte>>, envp: seq<seq<byte>>)
    requires Frames16(phys)
  {
    forall a, e | SameSizes(argv, a) && SameSizes(envp, e) :: AllFound(mem, phys, a, e)
  }

  lemma {:induction false} WholeIsFound(mem: Memory, phys: seq<nat>, argv: seq<seq<byte>>, envp: seq<seq<byte>>)
    requires Frames16(phys) && AllWhole(phys, argv, envp) && STACK_BOTTOM <= StringBottom(argv, envp)
    ensures AllFound(mem, phys, argv, envp)
  {
    hide Size, StringsWhole, KeptAbove, Frames16, TextAt;
    var top, withRandom := STACK_TOP - 16 - Size(envp), Written(mem, phys, STACK_TOP - 16, RANDOM);
    var withEnvp := StringsStored(withRandom, phys, STACK_TOP - 16, envp);
    assert envp[..|envp|] == envp && argv[..|argv|] == argv;
    StoredAreFound(withRandom, phys, STACK_TOP - 16, envp, |envp|);
    StoredAreFound(withEnvp, phys, top, argv, |argv|);
    StoredKeeps(withEnvp, phys, top, argv, |argv|);
    forall i | 0 <= i < |envp|
      ensures FoundAt(StringsIn(mem, phys, argv, envp), phys, Address(STACK_TOP - 16, envp, i), envp[i])
    {
      SizeGrows(envp, i + 1);
      TextKept(withEnvp, StringsIn(mem, phys, argv, envp), phys, top, Address(STACK_TOP - 16, envp, i), envp[i]);
    }
  }

  /** Strings that lie whole are found, whatever they say. */
  lemma {:induction false} WholeIsAlwaysFound(mem: Memory, phys: seq<nat>, argv: seq<seq<byte>>, envp: seq<seq<byte>>)
    requires Frames16(phys) && AllWhole(phys, argv, envp) && STACK_BOTTOM <= StringBottom(argv, envp)
    ensures AlwaysFound(mem, phys, argv, envp)
  {
    hide Size, StringsWhole, AllFound, Frames16;
    forall a, e | SameSizes(argv, a) && SameSizes(envp, e)
      ensures AllFound(mem, phys, a, e)
    {
      SizesDecide(phys, STACK_TOP - 16, envp, e);
      SizesDecide(phys, STACK_TOP - 16 - Size(envp), argv, a);
      WholeIsFound(mem, phys, a, e);
    }
  }

  /** Memory that agrees at a place before the strings are written agrees there afterwards. */
  lemma {:induction false} BaseDecides(mem: Memory, other: Memory, phys: seq<nat>, top: int, texts: seq<seq<byte>>, x: nat)
    requires Frames16(phys) && mem(x) == other(x)
    ensures StringsStored(mem, phys, top, texts)(x) == StringsStored(other, phys, top, texts)(x)
  {
    hide Physical, Size, Frames16;
    if texts != [] {
      BaseDecides(mem, other, phys, top, texts[..|texts| - 1], x);
    }
  }

  /** With one byte of one string replaced. */
  function Changed(texts: seq<seq<byte>>, i: nat, k: nat, v: byte): (other: seq<seq<byte>>)
    requires i < |texts| && k < |texts[i]|
    ensures SameSizes(texts, other) && other[i][k] == v
  {
    var text: seq<byte> := texts[i][k := v];
    texts[i := text]
  }

  /** Changing a byte of a string changes memory at most where that byte is written. */
  lemma {:induction false} ChangeStaysPut(mem: Memory, phys: seq<nat>, top: int, texts: seq<seq<byte>>, i: nat, k: nat, v: byte, x: nat)
    requires Frames16(phys) && i < |texts| && k < |texts[i]|
    requires OnStack(Address(top, texts, i)) ==> x != Physical(phys, Address(top, texts, i)) + k
    ensures StringsStored(mem, phys, top, Changed(texts, i, k, v))(x) == StringsStored(mem, phys, top, texts)(x)
  {
    hide Physical, Size, Frames16;
    var n, other := |texts| - 1, Changed(texts, i, k, v);
    SizeOfSame(texts, other, |texts|);
    assert texts[..|texts|] == texts && other[..|texts|] == other;
    if i < n {
      assert texts[..n][..i + 1] == texts[..i + 1];
      ChangeStaysPut(mem, phys, top, texts[..n], i, k, v, x);
      assert other[..n] == Changed(texts[..n], i, k, v) && other[n] == texts[n];
    } else {
      assert other[..n] == texts[..n];
      assert texts[..i + 1] == texts;
      ByteStaysPut(StringsStored(mem, phys, top, texts[..n]), phys, top - Size(texts), texts[n], k, v, x);
    }
  }

  lemma {:induction false} ByteStaysPut(mem: Memory, phys: seq<nat>, u: int, text: seq<byte>, k: nat, v: byte, x: nat)
    requires Frames16(phys) && k < |text| && (OnStack(u) ==> x != Physical(phys, u) + k)
    ensures Written(mem, phys, u, text[k := v] + [0])(x) == Written(mem, phys, u, text + [0])(x)
  {
    hide Physical;
  }

  /** The byte of a text that the program reads elsewhere than the kernel wrote it. */
  predicate Astray(phys: seq<nat>, u: int, k: nat)
    requires Frames16(phys)
  {
    OnStack(u) && OnStack(u + k) && Physical(phys, u + k) != Physical(phys, u) + k
  }

  /** The program cannot see the change of an argument's byte that is astray. */
  lemma {:induction false} ArgumentUnseen(mem: Memory, phys: seq<nat>, argv: seq<seq<byte>>, envp: seq<seq<byte>>, i: nat, k: nat, v: byte)
    requires Frames16(phys) && i < |argv| && k < |argv[i]| && Astray(phys, Address(STACK_TOP - 16 - Size(envp), argv, i), k)
    ensures var x := Physical(phys, Address(STACK_TOP - 16 - Size(envp), argv, i) + k);
            StringsIn(mem, phys, Changed(argv, i, k, v), envp)(x) == StringsIn(mem, phys, argv, envp)(x)
  {
    hide Size, Physical, Frames16, Written, StringsStored, Changed;
    var top := STACK_TOP - 16 - Size(envp);
    var withEnvp := StringsStored(Written(mem, phys, STACK_TOP - 16, RANDOM), phys, STACK_TOP - 16, envp);
    ChangeStaysPut(withEnvp, phys, top, argv, i, k, v, Physical(phys, Address(top, argv, i) + k));
  }

  lemma {:induction false} VariableUnseen(mem: Memory, phys: seq<nat>, argv: seq<seq<byte>>, envp: seq<seq<byte>>, i: nat, k: nat, v: byte)
    requires Frames16(phys) && i < |envp| && k < |envp[i]| && Astray(phys, Address(STACK_TOP - 16, envp, i), k)
    ensures var x := Physical(phys, Address(STACK_TOP - 16, envp, i) + k);
            StringsIn(mem, phys, argv, Changed(envp, i, k, v))(x) == StringsIn(mem, phys, argv, envp)(x)
  {
    hide Size, Physical, Frames16, Written, StringsStored, Changed;
    var top, other := STACK_TOP - 16, Changed(envp, i, k, v);
    var withRandom, x := Written(mem, phys, top, RANDOM), Physical(phys, Address(top, envp, i) + k);
    SizesDecide(phys, top, envp, other);
    ChangeStaysPut(withRandom, phys, top, envp, i, k, v, x);
    BaseDecides(StringsStored(withRandom, phys, top, other), StringsStored(withRandom, phys, top, envp), phys, top - Size(envp), argv, x);
  }

  /** An argument with a byte astray is lost for some choice of that byte. */
  lemma {:induction false} AstrayArgumentIsLost(mem: Memory, phys: seq<nat>, argv: seq<seq<byte>>, envp: seq<seq<byte>>, i: nat, k: nat)
    requires Frames16(phys) && i < |argv| && k < |argv[i]| && Astray(phys, Address(STACK_TOP - 16 - Size(envp), argv, i), k)
    ensures !AlwaysFound(mem, phys, argv, envp)
  {
    hide Size, Physical, Frames16, StringsIn, StringsFound, Changed;
    var top, v: byte := STACK_TOP - 16 - Size(envp), if argv[i][k] == 0 then 1 else 0;
    var other := Changed(argv, i, k, v);
    SizesDecide(phys, top, argv, other);
    ArgumentUnseen(mem, phys, argv, envp, i, k, v);
    if AlwaysFound(mem, phys, argv, envp) {
      assert SameSizes(argv, argv) && SameSizes(envp, envp);
      assert AllFound(mem, phys, argv, envp) && AllFound(mem, phys, other, envp);
      hide AlwaysFound, SameSizes;
      ReadsBoth(StringsIn(mem, phys, argv, envp), StringsIn(mem, phys, other, envp), phys, top, argv, other, i, k);
    }
  }

  lemma {:induction false} ReadsBoth(mem: Memory, after: Memory, phys: seq<nat>, top: int, texts: seq<seq<byte>>, other: seq<seq<byte>>, i: nat, k: nat)
    requires Frames16(phys) && i < |texts| == |other| && k < |texts[i]| == |other[i]| && Address(top, texts, i) == Address(top, other, i)
    requires StringsFound(mem, phys, top, texts) && StringsFound(after, phys, top, other)
    requires OnStack(Address(top, texts, i)) && OnStack(Address(top, texts, i) + k)
    requires mem(Physical(phys, Address(top, texts, i) + k)) == after(Physical(phys, Address(top, texts, i) + k))
    ensures texts[i][k] == other[i][k]
  {
    hide Size, Physical, Frames16;
    var u := Address(top, texts, i);
    assert FoundAt(mem, phys, u, texts[i]) && FoundAt(after, phys, u, other[i]);
    assert UserByte(mem, phys, u + k) == texts[i][k] && UserByte(after, phys, u + k) == other[i][k];
  }

  lemma {:induction false} AstrayVariableIsLost(mem: Memory, phys: seq<nat>, argv: seq<seq<byte>>, envp: seq<seq<byte>>, i: nat, k: nat)
    requires Frames16(phys) && i < |envp| && k < |envp[i]| && Astray(phys, Address(STACK_TOP - 16, envp, i), k)
    ensures !AlwaysFound(mem, phys, argv, envp)
  {
    hide Size, Physical, Frames16, StringsIn, StringsFound, Changed;
    var v: byte := if envp[i][k] == 0 then 1 else 0;
    var other := Changed(envp, i, k, v);
    SizesDecide(phys, STACK_TOP - 16, envp, other);
    VariableUnseen(mem, phys, argv, envp, i, k, v);
    if AlwaysFound(mem, phys, argv, envp) {
      assert SameSizes(argv, argv) && SameSizes(envp, envp);
      assert AllFound(mem, phys, argv, envp) && AllFound(mem, phys, argv, other);
      hide AlwaysFound, SameSizes;
      ReadsBoth(StringsIn(mem, phys, argv, envp), StringsIn(mem, phys, argv, other), phys, STACK_TOP - 16, envp, other, i, k);
    }
  }

  /** No string has its terminating zero, and only that, on a page of its own. */
  predicate NoLoneZero(top: int, texts: seq<seq<byte>>) {
    forall i | 0 <= i < |texts| && texts[i] != [] :: (Address(top, texts, i) + |texts[i]| - STACK_BOTTOM) % PAGE_BYTES != 0
  }

  lemma {:induction false} BrokenHasByteAstray(phys: seq<nat>, u: nat, n: nat) returns (k: nat)
    requires Frames16(phys) && OnStack(u) && OnStack(u + n) && !Whole(phys, u, n)
    requires (u + n - STACK_BOTTOM) % PAGE_BYTES != 0
    ensures k < n && Astray(phys, u, k)
  {
    hide Physical, Frames16;
    var a :| u <= a <= u + n && Physical(phys, a) != Physical(phys, u) + (a - u);
    k := a - u;
    if k == n {
      PreviousByte(phys, u + n);
      k := n - 1;
    }
  }

  lemma {:induction false} PreviousByte(phys: seq<nat>, a: nat)
    requires Frames16(phys) && OnStack(a) && (a - STACK_BOTTOM) % PAGE_BYTES != 0
    ensures OnStack(a - 1) && Physical(phys, a) == Physical(phys, a - 1) + 1
  {
    var x := a - STACK_BOTTOM;
    assert (x - 1) / PAGE_BYTES == x / PAGE_BYTES && (x - 1) % PAGE_BYTES == x % PAGE_BYTES - 1;
  }

  lemma {:induction false} BrokenString(phys: seq<nat>, top: int, texts: seq<seq<byte>>) returns (i: nat, k: nat)
    requires Frames16(phys) && NoLoneZero(top, texts) && !StringsWhole(phys, top, texts)
    ensures i < |texts| && k < |texts[i]| && Astray(phys, Address(top, texts, i), k)
  {
    hide Size, Physical, Frames16;
    i :| 0 <= i < |texts| && OnStack(Address(top, texts, i)) && OnStack(Address(top, texts, i) + |texts[i]|)
         && !Whole(phys, Address(top, texts, i), |texts[i]|);
    assert texts[i] != [];
    k := BrokenHasByteAstray(phys, Address(top, texts, i), |texts[i]|);
  }

  /**
   The exact condition, decided by the sizes and the frames alone: the program finds its
   strings, whatever they say, if and only if each lies whole in physical memory.
   */
  lemma {:induction false} AlwaysFoundIffWhole(mem: Memory, phys: seq<nat>, argv: seq<seq<byte>>, envp: seq<seq<byte>>)
    requires Frames16(phys) && STACK_BOTTOM <= StringBottom(argv, envp)
    requires NoLoneZero(STACK_TOP - 16, envp) && NoLoneZero(STACK_TOP - 16 - Size(envp), argv)
    ensures AlwaysFound(mem, phys, argv, envp) <==> AllWhole(phys, argv, envp)
  {
    hide Size, Frames16, AlwaysFound, StringsWhole, NoLoneZero, Astray;
    if AllWhole(phys, argv, envp) {
      WholeIsAlwaysFound(mem, phys, argv, envp);
    } else if !StringsWhole(phys, STACK_TOP - 16, envp) {
      var i, k := BrokenString(phys, STACK_TOP - 16, envp);
      AstrayVariableIsLost(mem, phys, argv, envp, i, k);
    } else {
      var i, k := BrokenString(phys, STACK_TOP - 16 - Size(envp), argv);
      AstrayArgumentIsLost(mem, phys, argv, envp, i, k);
    }
  }

  // ------------------------------------------------------------------- two failures

  /** Fifteen frames in a row and one from another region, as the allocator hands them out at the end of a region. */
  function SplitFrames(): (phys: seq<nat>)
    ensures Frames16(phys) && forall i | 0 <= i < STACK_PAGES :: phys[i] == if i < 15 then i * PAGE_BYTES else 32 * PAGE_BYTES
  {
    seq(STACK_PAGES, i requires 0 <= i < STACK_PAGES => if i < 15 then i * PAGE_BYTES else 32 * PAGE_BYTES)
  }

  function LongText(n: nat): (text: seq<byte>)
    ensures |text| == n && forall k | 0 <= k < n :: text[k] == 65
  {
    seq(n, _ => 65)
  }

  const NO_STRINGS: seq<seq<byte>> := []

  lemma {:induction false} OneString(top: int, text: seq<byte>)
    ensures Size([text]) == |text| + 1 && Size([]) == 0 && Address(top, [text], 0) == top - |text| - 1
  {
    assert [text][..0] == [] && [text][..1] == [text];
  }

  /** An argument of 5000 letters on those frames: from byte 921 on the program reads zeros, and a foreign frame holds the letters. */
  lemma {:induction false} SplitArgumentIsLost(memory: Memory)
    requires var mem: Memory := (_: nat) => 0; var argv := [LongText(5000)];
             KeptAbove(StringsIn(mem, SplitFrames(), argv, []), memory, SplitFrames(), StringBottom(argv, []))
    ensures Fits([LongText(5000)], NO_STRINGS)
    ensures var u := Address(STACK_TOP - 16, [LongText(5000)], 0);
            UserByte(memory, SplitFrames(), u + 921) == 0 && !TextAt(memory, SplitFrames(), u, LongText(5000))
    ensures OffFrames(SplitFrames(), 15 * PAGE_BYTES) && memory(15 * PAGE_BYTES) == 65
  {
    hide KeptAbove, OffFrames;
    var mem: Memory := (_: nat) => 0;
    SplitStored(mem);
    SplitSeen(StringsIn(mem, SplitFrames(), [LongText(5000)], []), memory);
  }

  lemma {:induction false} SplitAddress()
    ensures Size(NO_STRINGS) == 0 && StringBottom([LongText(5000)], NO_STRINGS) == STACK_TOP - 5017
    ensures Address(STACK_TOP - 16, [LongText(5000)], 0) == STACK_TOP - 5017
    ensures Physical(SplitFrames(), STACK_TOP - 5017) == 14 * PAGE_BYTES + 3175
    ensures Physical(SplitFrames(), STACK_TOP - 5017 + 921) == 32 * PAGE_BYTES
    ensures Physical(SplitFrames(), STACK_TOP - 16) == 32 * PAGE_BYTES + 4080
    ensures Fits([LongText(5000)], NO_STRINGS)
  {
    OneString(STACK_TOP - 16, LongText(5000));
  }

  lemma {:induction false} SplitStored(mem: Memory)
    requires forall x :: mem(x) == 0
    ensures var strings := StringsIn(mem, SplitFrames(), [LongText(5000)], NO_STRINGS);
            && UserByte(strings, SplitFrames(), STACK_TOP - 5017 + 921) == 0
            && strings(15 * PAGE_BYTES) == 65 && OffFrames(SplitFrames(), 15 * PAGE_BYTES)
  {
    hide SplitFrames, LongText, Frames16, Physical, Size;
    var argv := [LongText(5000)];
    SplitAddress();
    var withRandom := Written(mem, SplitFrames(), STACK_TOP - 16, RANDOM);
    assert argv[..1] == argv && argv[..0] == [];
    NextStored(withRandom, SplitFrames(), STACK_TOP - 16, argv, 0);
  }

  lemma {:induction false} SplitSeen(strings: Memory, memory: Memory)
    requires KeptAbove(strings, memory, SplitFrames(), STACK_TOP - 5017)
    requires UserByte(strings, SplitFrames(), STACK_TOP - 5017 + 921) == 0
    requires strings(15 * PAGE_BYTES) == 65 && OffFrames(SplitFrames(), 15 * PAGE_BYTES)
    ensures UserByte(memory, SplitFrames(), STACK_TOP - 5017 + 921) == 0 && memory(15 * PAGE_BYTES) == 65
    ensures !TextAt(memory, SplitFrames(), STACK_TOP - 5017, LongText(5000))
  {
    hide SplitFrames, Frames16, Physical, OffFrames, UserByte, LongText;
    WrongByte(memory, SplitFrames(), STACK_TOP - 5017, LongText(5000), 921);
  }

  lemma {:induction false} WrongByte(mem: Memory, phys: seq<nat>, u: nat, text: seq<byte>, k: nat)
    requires Frames16(phys) && k < |text| && OnStack(u + k) && UserByte(mem, phys, u + k) != text[k]
    ensures !TextAt(mem, phys, u, text)
  {
    hide UserByte, Frames16;
  }

  /** One argument of 65536 letters: the pointer is returned, but nothing is laid out below the stack. */
  lemma {:induction false} LongArgumentDoesNotFit()
    ensures 0 <= StackPointer([LongText(65536)], NO_STRINGS) && !Fits([LongText(65536)], NO_STRINGS)
  {
    OneString(STACK_TOP - 16, LongText(65536));
  }

  // ------------------------------------------------------------------- the reader

  const AT_NULL: nat := 0
  const AT_PHDR: nat := 3
  const AT_PHENT: nat := 4
  const AT_PHNUM: nat := 5
  const AT_PAGESZ: nat := 6
  const AT_BASE: nat := 7
  const AT_ENTRY: nat := 9
  const AT_SECURE: nat := 23
  const AT_RANDOM: nat := 25
  const AT_EXECFN: nat := 31

  datatype View = View(argc: nat, argv0: nat, entry: nat, base: nat, phdr: nat, phent: nat, phnum: nat, execfn: nat)

  /** The value of the last pair with a key, or zero. */
  function Latest(pairs: seq<(nat, nat)>, key: nat): nat {
    if pairs == [] then 0
    else if pairs[|pairs| - 1].0 == key then pairs[|pairs| - 1].1
    else Latest(pairs[..|pairs| - 1], key)
  }

  predicate Terminated(pairs: seq<(nat, nat)>) {
    && pairs != [] && pairs[|pairs| - 1].0 == AT_NULL
    && forall i | 0 <= i < |pairs| - 1 :: pairs[i].0 != AT_NULL
  }

  function ViewOf(argv: seq<nat>, pairs: seq<(nat, nat)>): View {
    View(|argv|, if argv == [] then 0 else argv[0], Latest(pairs, AT_ENTRY), Latest(pairs, AT_BASE), Latest(pairs, AT_PHDR),
         Latest(pairs, AT_PHENT), Latest(pairs, AT_PHNUM), Latest(pairs, AT_EXECFN))
  }

  lemma {:induction false} FlatAt(pairs: seq<(nat, nat)>, i: nat)
    requires i < |pairs|
    ensures Flat(pairs)[2 * i] == pairs[i].0 && Flat(pairs)[2 * i + 1] == pairs[i].1
  {
    if i > 0 {
      FlatAt(pairs[1..], i - 1);
    }
  }

  /** Where things stand in the layout. */
  lemma {:induction false} LayoutAt(argv: seq<nat>, envp: seq<nat>, pairs: seq<(nat, nat)>)
    ensures var words := Layout(argv, envp, pairs);
            && |words| >= 3 + |argv| + |envp| + 2 * |pairs|
            && words[0] == |argv| && (argv != [] ==> words[1] == argv[0])
            && words[2 + |argv|..2 + |argv| + |envp|] == envp
            && words[2 + |argv| + |envp|] == 0
            && words[3 + |argv| + |envp|..3 + |argv| + |envp| + 2 * |pairs|] == Flat(pairs)
  {
    hide Flat;
  }

  /** What the walk over the auxiliary pairs has gathered after the first i of them. */
  predicate Gathered(view: View, argv: seq<nat>, pairs: seq<(nat, nat)>) {
    view == ViewOf(argv, pairs)
  }

  function Gather(view: View, key: nat, value: nat): View {
    if key == AT_PHDR then view.(phdr := value)
    else if key == AT_PHENT then view.(phent := value)
    else if key == AT_PHNUM then view.(phnum := value)
    else if key == AT_BASE then view.(base := value)
    else if key == AT_ENTRY then view.(entry := value)
    else if key == AT_EXECFN then view.(execfn := value)
    else view
  }

  lemma {:induction false} GatherStep(view: View, argv: seq<nat>, pairs: seq<(nat, nat)>, i: nat)
    requires i < |pairs| && Gathered(view, argv, pairs[..i])
    ensures Gathered(Gather(view, pairs[i].0, pairs[i].1), argv, pairs[..i + 1])
  {
    assert pairs[..i + 1][..i] == pairs[..i];
  }

  lemma {:induction false} GatherEnd(view: View, argv: seq<nat>, pairs: seq<(nat, nat)>)
    requires Terminated(pairs) && Gathered(view, argv, pairs[..|pairs| - 1])
    ensures view == ViewOf(argv, pairs)
  {
  }

  lemma {:induction false} WordFound(mem: Memory, phys: seq<nat>, sp: nat, words: seq<nat>, k: nat)
    requires Frames16(phys) && WordsAt(mem, phys, sp, words) && k < |words|
    ensures OnStack(sp + 8 * k) && (sp + 8 * k) % 8 == 0 && UserWord(mem, phys, sp + 8 * k) == words[k]
  {
  }

  /** Reads the stack that a kernel laid out; `argv`, `envp` and `pairs` are what it put there. */
  method ParseInitialStack(mem: Memory, phys: seq<nat>, sp: nat, ghost argv: seq<nat>, ghost envp: seq<nat>, ghost pairs: seq<(nat, nat)>)
    returns (view: View)
    requires Frames16(phys) && WordsAt(mem, phys, sp, Layout(argv, envp, pairs)) && Terminated(pairs)
    requires forall i | 0 <= i < |envp| :: envp[i] != 0
    ensures view == ViewOf(argv, pairs)
  {
    hide UserWord, Layout, WordsAt, ViewOf, Gathered, Frames16;
    ghost var words := Layout(argv, envp, pairs);
    LayoutAt(argv, envp, pairs);
    WordFound(mem, phys, sp, words, 0);
    var argc := UserWord(mem, phys, sp);
    var cursor := sp + 8;
    var argv0 := 0;
    if argc != 0 {
      WordFound(mem, phys, sp, words, 1);
      argv0 := UserWord(mem, phys, cursor);
    }
    cursor := cursor + 8 * argc + 8;
    cursor := SkipEnvironment(mem, phys, cursor, sp, words, 2 + |argv|, envp);
    view := View(argc, argv0, 0, 0, 0, 0, 0, 0);
    NothingGathered(view, argv, pairs);
    view := ReadAuxiliary(mem, phys, cursor, view, argv, pairs, sp, words, 3 + |argv| + |envp|);
  }

  lemma {:induction false} PointerFound(words: seq<nat>, at: nat, envp: seq<nat>, k: nat)
    requires at + |envp| < |words| && words[at..at + |envp|] == envp && words[at + |envp|] == 0 && k <= |envp|
    ensures words[at + k] == if k < |envp| then envp[k] else 0
  {
    assert k < |envp| ==> words[at + k] == words[at..at + |envp|][k];
  }

  /** Moves past the environment pointers and the zero that ends them. */
  method SkipEnvironment(mem: Memory, phys: seq<nat>, start: nat, ghost sp: nat, ghost words: seq<nat>, ghost at: nat, ghost envp: seq<nat>)
    returns (cursor: nat)
    requires Frames16(phys) && WordsAt(mem, phys, sp, words) && start == sp + 8 * at && at + |envp| < |words|
    requires words[at..at + |envp|] == envp && (forall k | 0 <= k < |envp| :: envp[k] != 0)
    requires words[at + |envp|] == 0
    ensures cursor == sp + 8 * (at + |envp| + 1)
  {
    hide UserWord, WordsAt, Frames16;
    cursor := start;
    ghost var k := 0;
    WordFound(mem, phys, sp, words, at);
    PointerFound(words, at, envp, 0);
    while UserWord(mem, phys, cursor) != 0
      invariant k <= |envp| && cursor == sp + 8 * (at + k)
      invariant OnStack(cursor) && cursor % 8 == 0
      invariant UserWord(mem, phys, cursor) == if k < |envp| then envp[k] else 0
      decreases |envp| - k
    {
      k := k + 1;
      cursor := cursor + 8;
      WordFound(mem, phys, sp, words, at + k);
      PointerFound(words, at, envp, k);
    }
    cursor := cursor + 8;
  }

  lemma {:induction false} NothingGathered(view: View, argv: seq<nat>, pairs: seq<(nat, nat)>)
    requires view == View(|argv|, if argv == [] then 0 else argv[0], 0, 0, 0, 0, 0, 0)
    ensures Gathered(view, argv, pairs[..0])
  {
    assert pairs[..0] == [];
  }

  lemma {:induction false} PairFound(words: seq<nat>, at: nat, pairs: seq<(nat, nat)>, i: nat)
    requires i < |pairs| && at + 2 * |pairs| <= |words| && words[at..at + 2 * |pairs|] == Flat(pairs)
    ensures words[at + 2 * i] == pairs[i].0 && words[at + 2 * i + 1] == pairs[i].1
  {
    hide Flat;
    FlatAt(pairs, i);
    assert words[at + 2 * i] == words[at..at + 2 * |pairs|][2 * i];
    assert words[at + 2 * i + 1] == words[at..at + 2 * |pairs|][2 * i + 1];
  }

  method ReadAuxiliary(mem: Memory, phys: seq<nat>, start: nat, initial: View, ghost argv: seq<nat>, ghost pairs: seq<(nat, nat)>,
                       ghost sp: nat, ghost words: seq<nat>, ghost at: nat)
    returns (view: View)
    requires Frames16(phys) && WordsAt(mem, phys, sp, words) && Terminated(pairs) && Gathered(initial, argv, pairs[..0])
    requires start == sp + 8 * at && at + 2 * |pairs| <= |words|
    requires words[at..at + 2 * |pairs|] == Flat(pairs)
    ensures view == ViewOf(argv, pairs)
  {
    hide UserWord, WordsAt, Frames16, Gathered, ViewOf, Flat;
    view := initial;
    var cursor := start;
    ghost var i := 0;
    while true
      invariant i < |pairs| && cursor == sp + 8 * (at + 2 * i)
      invariant Gathered(view, argv, pairs[..i])
      decreases |pairs| - i
    {
      WordFound(mem, phys, sp, words, at + 2 * i);
      WordFound(mem, phys, sp, words, at + 2 * i + 1);
      PairFound(words, at, pairs, i);
      var key := UserWord(mem, phys, cursor);
      var value := UserWord(mem, phys, cursor + 8);
      cursor := cursor + 16;
      if key == AT_NULL {
        assert i == |pairs| - 1;
        GatherEnd(view, argv, pairs);
        return;
      }
      GatherStep(view, argv, pairs, i);
      view := Gather(view, key, value);
      i := i + 1;
    }
  }

  /** Reading what the writer wrote gives back every value the writer was given. */
  lemma {:induction false} ReaderRecovers(entry: nat, headersAt: nat, headerCount: nat, argv: seq<nat>)
    ensures Terminated(Auxiliary(entry, headersAt, headerCount))
    ensures var view := ViewOf(argv, Auxiliary(entry, headersAt, headerCount));
            && view.argc == |argv| && (argv != [] ==> view.argv0 == argv[0])
            && view.entry == entry && view.phdr == headersAt && view.phnum == headerCount
            && view.phent == 56 && view.base == 0 && view.execfn == 0
    ensures var pairs := Auxiliary(entry, headersAt, headerCount);
            Latest(pairs, AT_PAGESZ) == PAGE_BYTES && Latest(pairs, AT_RANDOM) == STACK_TOP - 16 && Latest(pairs, AT_SECURE) == 0
  {
    var pairs := Auxiliary(entry, headersAt, headerCount);
    LatestAt(pairs, AT_PAGESZ, 3);
    LatestAt(pairs, AT_RANDOM, 12);
    LatestAt(pairs, AT_SECURE, 11);
    LatestAt(pairs, AT_ENTRY, 6);
    LatestAt(pairs, AT_PHDR, 0);
    LatestAt(pairs, AT_PHNUM, 2);
    LatestAt(pairs, AT_PHENT, 1);
    LatestAt(pairs, AT_BASE, 4);
    LatestNowhere(pairs, AT_EXECFN);
  }

  lemma {:induction false} LatestAt(pairs: seq<(nat, nat)>, key: nat, i: nat)
    requires i < |pairs| && pairs[i].0 == key && forall j | i < j < |pairs| :: pairs[j].0 != key
    ensures Latest(pairs, key) == pairs[i].1
  {
    if i < |pairs| - 1 {
      LatestAt(pairs[..|pairs| - 1], key, i);
    }
  }

  lemma {:induction false} LatestNowhere(pairs: seq<(nat, nat)>, key: nat)
    requires forall j | 0 <= j < |pairs| :: pairs[j].0 != key
    ensures Latest(pairs, key) == 0
  {
    if pairs != [] {
      LatestNowhere(pairs[..|pairs| - 1], key);
    }
  }

  /**
   The kernel's writer followed by the program's reader. What the program finds under
   argv[0] is the first argument itself when every string lies whole in physical memory.
   */
  method WriteThenRead(w: StackWriter, entry: nat, headersAt: nat, headerCount: nat, argv: seq<seq<byte>>, envp: seq<seq<byte>>)
    returns (view: View)
    requires Frames16(w.phys) && w.sp == STACK_TOP && Fits(argv, envp)
    requires entry < WORD && headersAt < WORD && headerCount < WORD
    modifies w
    ensures view.argc == |argv| && view.entry == entry && view.phdr == headersAt && view.phnum == headerCount
    ensures view.phent == 56 && view.base == 0
    ensures argv != [] ==> view.argv0 == Address(STACK_TOP - 16 - Size(envp), argv, 0)
    ensures argv != [] && AllWhole(w.phys, argv, envp) ==> TextAt(w.memory, w.phys, view.argv0, argv[0])
  {
    hide WordsAt, Auxiliary, ViewOf, TextAt, Size, Layout, StackPointer;
    var argvAt, envpAt := w.Setup(entry, headersAt, headerCount, argv, envp);
    ReaderRecovers(entry, headersAt, headerCount, argvAt);
    view := ParseInitialStack(w.memory, w.phys, w.sp, argvAt, envpAt, Auxiliary(entry, headersAt, headerCount));
  }
}
