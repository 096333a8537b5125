/**
 The page codec of the compressed store: four encodings of a 4096-byte page
 (all zero, one repeated byte, a stream of literal/dictionary/pattern tokens,
 raw), each framed by a 16-byte header with a checksum.

 The dictionary and pattern tables are a parameter: the results hold for every
 profile whose ids are unique, and `MinimalV1` is the profile the kernel ships.
 */
module PageCodec {
  import opened Bytes
  import Fnv

  datatype Class = Zero | Same | Sxrc | Raw

  datatype Error =
    | NotInitialized
    | OutputTooSmall
    | TruncatedInput
    | InvalidHeaderMagic
    | UnsupportedHeaderVersion
    | InvalidPayloadLength
    | InvalidDecodedLength
    | ChecksumMismatch
    | UnsupportedClass

  type Page = p: seq<byte> | |p| == PAGE_BYTES witness seq(PAGE_BYTES, _ => 0)

  // ----------------------------------------------------------------- profiles

  datatype Profile = Profile(dictionary: seq<(nat, nat)>, patterns: seq<(nat, seq<byte>)>)

  ghost predicate UniqueIds<T>(table: seq<(nat, T)>) {
    forall i, j | 0 <= i < j < |table| :: table[i].0 != table[j].0
  }

  ghost predicate WellFormed(profile: Profile) {
    && UniqueIds(profile.dictionary)
    && UniqueIds(profile.patterns)
    && (forall i | 0 <= i < |profile.dictionary| ::
          profile.dictionary[i].0 < 0x1_0000 && profile.dictionary[i].1 < 0x1_0000_0000)
    && (forall i | 0 <= i < |profile.patterns| :: profile.patterns[i].0 < 0x1_0000)
  }

  function MinimalV1(): Profile {
    Profile([(1, 0), (2, 0xffff), (3, 0x07fe), (4, 0x04ee), (5, 0x9090)],
            [(1, [0x48, 0x89, 0xd8]), (2, [0x55])])
  }

  lemma {:induction false} MinimalV1IsWellFormed()
    ensures WellFormed(MinimalV1())
    ensures forall i | 0 <= i < |MinimalV1().patterns| :: 0 < |MinimalV1().patterns[i].1| < 4
  {
  }

  /** The first entry with the given id. */
  function FindById<T>(table: seq<(nat, T)>, id: nat): Option<T> {
    if table == [] then None
    else if table[0].0 == id then Some(table[0].1)
    else FindById(table[1..], id)
  }

  lemma {:induction false} FindByIdAt<T>(table: seq<(nat, T)>, id: nat, k: nat)
    requires k < |table| && table[k].0 == id
    requires forall j | 0 <= j < k :: table[j].0 != id
    ensures FindById(table, id) == Some(table[k].1)
  {
    if k > 0 {
      assert table[0].0 != id;
      FindByIdAt(table[1..], id, k - 1);
    }
  }

  lemma {:induction false} FindByIdNone<T>(table: seq<(nat, T)>, id: nat)
    requires forall j | 0 <= j < |table| :: table[j].0 != id
    ensures FindById(table, id) == None
  {
    if table != [] {
      FindByIdNone(table[1..], id);
    }
  }

  method LookupById<T>(table: seq<(nat, T)>, id: nat) returns (r: Option<T>)
    ensures r == FindById(table, id)
  {
    for i := 0 to |table|
      invariant forall j | 0 <= j < i :: table[j].0 != id
    {
      if table[i].0 == id {
        FindByIdAt(table, id, i);
        return Some(table[i].1);
      }
    }
    FindByIdNone(table, id);
    return None;
  }

  // ------------------------------------------------------------------- tokens

  datatype Token = Literal(bytes: seq<byte>) | Dict(id: nat) | Pattern(id: nat)

  predicate ValidToken(profile: Profile, token: Token) {
    match token
    case Literal(bytes) => 1 <= |bytes| <= 255
    case Dict(id) => id < 0x1_0000 && FindById(profile.dictionary, id).Some?
    case Pattern(id) => id < 0x1_0000 && FindById(profile.patterns, id).Some?
  }

  /** The bytes a token occupies in the payload. */
  function TokenBytes(token: Token): (bytes: seq<byte>)
    ensures |bytes| > 0
  {
    match token
    case Literal(bytes) => [0, |bytes| % 256] + bytes
    case Dict(id) => [1] + Le16(id)
    case Pattern(id) => [2] + Le16(id)
  }

  /** The page bytes a token stands for (none if its id is unknown). */
  function Expansion(profile: Profile, token: Token): seq<byte> {
    match token
    case Literal(bytes) => bytes
    case Dict(id) =>
      var word := FindById(profile.dictionary, id);
      if word.Some? then Le32(word.value) else []
    case Pattern(id) =>
      var pattern := FindById(profile.patterns, id);
      if pattern.Some? then pattern.value else []
  }

  ghost predicate AllValid(profile: Profile, tokens: seq<Token>) {
    forall i | 0 <= i < |tokens| :: ValidToken(profile, tokens[i])
  }

  function Serialize(tokens: seq<Token>): seq<byte> {
    if tokens == [] then []
    else
      var last := |tokens| - 1;
      Serialize(tokens[..last]) + TokenBytes(tokens[last])
  }

  function Expand(profile: Profile, tokens: seq<Token>): seq<byte> {
    if tokens == [] then []
    else
      var last := |tokens| - 1;
      Expand(profile, tokens[..last]) + Expansion(profile, tokens[last])
  }

  lemma {:induction false} EmptyStream(profile: Profile)
    ensures Serialize([]) == [] && Expand(profile, []) == []
  {
  }

  lemma {:induction false} Append(profile: Profile, tokens: seq<Token>, token: Token)
    ensures Serialize(tokens + [token]) == Serialize(tokens) + TokenBytes(token)
    ensures Expand(profile, tokens + [token]) == Expand(profile, tokens) + Expansion(profile, token)
  {
    assert (tokens + [token])[..|tokens|] == tokens;
  }

  /** The payload is these tokens, end to end, and they fill one page with none to spare. */
  ghost predicate Splits(profile: Profile, payload: seq<byte>, tokens: seq<Token>) {
    && tokens != []
    && AllValid(profile, tokens)
    && Serialize(tokens) == payload
    && |Expand(profile, tokens)| == PAGE_BYTES
    && |Expand(profile, tokens[..|tokens| - 1])| < PAGE_BYTES
  }

  ghost predicate StartsWith(payload: seq<byte>, at: nat, token: Token) {
    var bytes := TokenBytes(token);
    at + |bytes| <= |payload| && payload[at..at + |bytes|] == bytes
  }

  /** A prefix of the tokens serializes to a prefix of the payload and expands to no more bytes. */
  lemma {:induction false} PrefixOfStream(profile: Profile, part: seq<Token>, tokens: seq<Token>)
    requires part <= tokens
    ensures Serialize(part) <= Serialize(tokens)
    ensures |Expand(profile, part)| <= |Expand(profile, tokens)|
  {
    if part != tokens {
      PrefixOfStream(profile, part, tokens[..|tokens| - 1]);
    }
  }

  lemma {:induction false} SliceOfPrefix<T>(a: seq<T>, b: seq<T>, whole: seq<T>)
    requires a + b <= whole
    ensures |a| + |b| <= |whole| && whole[|a|..|a| + |b|] == b
  {
    assert whole[|a|..|a| + |b|] == (a + b)[|a|..];
  }

  lemma {:induction false} ExtendPrefix<T>(part: seq<T>, whole: seq<T>)
    requires part < whole
    ensures part + [whole[|part|]] <= whole
  {
  }

  /** Each token of a stream sits right after the tokens before it. */
  lemma {:induction false} TokenInPlace(profile: Profile, tokens: seq<Token>, done: seq<Token>)
    requires done < tokens
    ensures StartsWith(Serialize(tokens), |Serialize(done)|, tokens[|done|])
    ensures |Expand(profile, done)| + |Expansion(profile, tokens[|done|])| <= |Expand(profile, tokens)|
  {
    var next := tokens[|done|];
    ExtendPrefix(done, tokens);
    PrefixOfStream(profile, done + [next], tokens);
    Append(profile, done, next);
    SliceOfPrefix(Serialize(done), TokenBytes(next), Serialize(tokens));
  }

  // ------------------------------------------------------ decoding the stream

  /** What the first bytes tell about any token that starts here. */
  ghost predicate FitsBytes(payload: seq<byte>, at: nat, token: Token) {
    && at < |payload|
    && match token
       case Literal(bytes) =>
         payload[at] == 0 && at + 2 + |bytes| <= |payload| && payload[at + 1] == |bytes|
       case Dict(id) =>
         payload[at] == 1 && at + 3 <= |payload| && ReadLe16(payload, at + 1) == id
       case Pattern(id) =>
         payload[at] == 2 && at + 3 <= |payload| && ReadLe16(payload, at + 1) == id
  }

  lemma {:induction false} TokensFitTheirBytes(profile: Profile, payload: seq<byte>, at: nat)
    ensures forall token | ValidToken(profile, token) && StartsWith(payload, at, token) ::
              FitsBytes(payload, at, token)
  {
    forall token | ValidToken(profile, token) && StartsWith(payload, at, token)
      ensures FitsBytes(payload, at, token)
    {
      var bytes := TokenBytes(token);
      assert payload[at] == payload[at..at + |bytes|][0] == bytes[0];
      assert payload[at + 1] == payload[at..at + |bytes|][1] == bytes[1];
      if !token.Literal? {
        assert payload[at + 2] == payload[at..at + |bytes|][2] == bytes[2];
        ReadWritten16(token.id);
      }
    }
  }

  lemma {:induction false} LiteralInPlace(payload: seq<byte>, at: nat, bytes: seq<byte>)
    requires StartsWith(payload, at, Literal(bytes))
    ensures at + 2 + |bytes| <= |payload| && bytes == payload[at + 2..at + 2 + |bytes|]
  {
    assert bytes == TokenBytes(Literal(bytes))[2..] == payload[at..at + 2 + |bytes|][2..];
  }

  /** Two valid tokens that start at the same place are the same token: the stream has one reading. */
  lemma {:induction false} TokensAreUnambiguous(profile: Profile, payload: seq<byte>, at: nat, a: Token, b: Token)
    requires ValidToken(profile, a) && ValidToken(profile, b)
    requires StartsWith(payload, at, a) && StartsWith(payload, at, b)
    ensures a == b
  {
    hide StartsWith, ReadLe16, ValidToken;
    TokensFitTheirBytes(profile, payload, at);
    assert FitsBytes(payload, at, a) && FitsBytes(payload, at, b);
    if a.Literal? {
      LiteralInPlace(payload, at, a.bytes);
      LiteralInPlace(payload, at, b.bytes);
    }
  }

  /** Read the token at `at`, if one is there. */
  method ReadToken(profile: Profile, payload: seq<byte>, at: nat) returns (r: Option<Token>)
    requires at <= |payload|
    ensures r.Some? ==> ValidToken(profile, r.value) && StartsWith(payload, at, r.value)
    ensures r.None? ==> forall token | ValidToken(profile, token) :: !StartsWith(payload, at, token)
  {
    TokensFitTheirBytes(profile, payload, at);
    if at == |payload| {
      return None;
    }
    if payload[at] == 0 {
      if at + 1 == |payload| {
        return None;
      }
      var len := payload[at + 1];
      if len == 0 || at + 2 + len > |payload| {
        return None;
      }
      r := Some(Literal(payload[at + 2..at + 2 + len]));
      assert TokenBytes(r.value) == payload[at..at + 2 + len];
    } else if payload[at] == 1 || payload[at] == 2 {
      if at + 3 > |payload| {
        return None;
      }
      var id := ReadLe16(payload, at + 1);
      WriteRead16(payload, at + 1);
      var token := if payload[at] == 1 then Dict(id) else Pattern(id);
      assert TokenBytes(token) == payload[at..at + 3];
      var word := LookupById(profile.dictionary, id);
      var pattern := LookupById(profile.patterns, id);
      if (token.Dict? && word.Some?) || (token.Pattern? && pattern.Some?) {
        return Some(token);
      }
      return None;
    } else {
      return None;
    }
  }

  /** Progress of a decoder that has consumed `done`: any full reading of the payload continues it. */
  ghost predicate ReadingContinues(profile: Profile, payload: seq<byte>, done: seq<Token>) {
    forall tokens | Splits(profile, payload, tokens) :: done <= tokens
  }

  lemma {:induction false} NextTokenOfReading(profile: Profile, payload: seq<byte>, done: seq<Token>, tokens: seq<Token>)
    requires Splits(profile, payload, tokens) && done <= tokens
    requires |Expand(profile, done)| < PAGE_BYTES
    ensures done < tokens
    ensures StartsWith(payload, |Serialize(done)|, tokens[|done|])
    ensures |Expand(profile, done)| + |Expansion(profile, tokens[|done|])| <= PAGE_BYTES
  {
    assert |done| == |tokens| ==> done == tokens;
    TokenInPlace(profile, tokens, done);
  }

  lemma {:induction false} ReadingAdvances(profile: Profile, payload: seq<byte>, done: seq<Token>, token: Token)
    requires AllValid(profile, done) && ReadingContinues(profile, payload, done)
    requires |Expand(profile, done)| < PAGE_BYTES
    requires ValidToken(profile, token) && StartsWith(payload, |Serialize(done)|, token)
    ensures ReadingContinues(profile, payload, done + [token])
  {
    forall tokens | Splits(profile, payload, tokens) ensures done + [token] <= tokens {
      NextTokenOfReading(profile, payload, done, tokens);
      TokensAreUnambiguous(profile, payload, |Serialize(done)|, token, tokens[|done|]);
      ExtendPrefix(done, tokens);
    }
  }

  lemma {:induction false} NoReading(profile: Profile, payload: seq<byte>, done: seq<Token>)
    requires AllValid(profile, done) && ReadingContinues(profile, payload, done)
    requires |Expand(profile, done)| < PAGE_BYTES
    requires forall token | ValidToken(profile, token) && StartsWith(payload, |Serialize(done)|, token) ::
               |Expand(profile, done)| + |Expansion(profile, token)| > PAGE_BYTES
    ensures forall tokens :: !Splits(profile, payload, tokens)
  {
    forall tokens | Splits(profile, payload, tokens) ensures false {
      NextTokenOfReading(profile, payload, done, tokens);
    }
  }

  /** A full reading is the only one, and it leaves no byte over. */
  lemma {:induction false} ReadingEnds(profile: Profile, payload: seq<byte>, done: seq<Token>)
    requires AllValid(profile, done) && ReadingContinues(profile, payload, done)
    requires |Expand(profile, done)| == PAGE_BYTES
    ensures forall tokens | Splits(profile, payload, tokens) :: tokens == done
  {
    forall tokens | Splits(profile, payload, tokens) ensures tokens == done {
      if done <= tokens[..|tokens| - 1] {
        PrefixOfStream(profile, done, tokens[..|tokens| - 1]);
      }
    }
  }

  /**
   Decoding accepts exactly the byte strings that split fully into valid tokens
   filling one page, and produces the concatenation of their expansions.
   */
  method DecodeSxrc(profile: Profile, payload: seq<byte>, out: array<byte>) returns (r: Result<(), Error>)
    requires out.Length == PAGE_BYTES
    modifies out
    ensures r.Ok? ==> exists tokens :: Splits(profile, payload, tokens) && out[..] == Expand(profile, tokens)
    ensures r.Err? ==> r.error == InvalidPayloadLength && forall tokens :: !Splits(profile, payload, tokens)
  {
    hide Serialize, Expand, TokenBytes, Expansion, ValidToken, StartsWith;
    EmptyStream(profile);
    var read: nat, write: nat := 0, 0;
    ghost var done: seq<Token> := [];
    while write < PAGE_BYTES
      invariant AllValid(profile, done) && ReadingContinues(profile, payload, done)
      invariant read <= |payload| && payload[..read] == Serialize(done)
      invariant write <= PAGE_BYTES && out[..write] == Expand(profile, done)
      invariant done != [] ==> |Expand(profile, done[..|done| - 1])| < PAGE_BYTES
      decreases |payload| - read
    {
      var next := ReadToken(profile, payload, read);
      if next.None? {
        NoReading(profile, payload, done);
        return Err(InvalidPayloadLength);
      }
      var bytes := Expansion(profile, next.value);
      if write + |bytes| > PAGE_BYTES {
        NoReadingBeyond(profile, payload, done, next.value);
        return Err(InvalidPayloadLength);
      }
      ReadingAdvances(profile, payload, done, next.value);
      Append(profile, done, next.value);
      CopyInto(out, write, bytes);
      read := read + |TokenBytes(next.value)|;
      write := write + |bytes|;
      done := done + [next.value];
      assert done[..|done| - 1] + [next.value] == done;
    }
    ReadingEnds(profile, payload, done);
    if read != |payload| {
      return Err(InvalidPayloadLength);
    }
    assert payload[..read] == payload && out[..write] == out[..];
    assert Splits(profile, payload, done);
    return Ok(());
  }

  lemma {:induction false} NoReadingBeyond(profile: Profile, payload: seq<byte>, done: seq<Token>, token: Token)
    requires AllValid(profile, done) && ReadingContinues(profile, payload, done)
    requires |Expand(profile, done)| < PAGE_BYTES
    requires ValidToken(profile, token) && StartsWith(payload, |Serialize(done)|, token)
    requires |Expand(profile, done)| + |Expansion(profile, token)| > PAGE_BYTES
    ensures forall tokens :: !Splits(profile, payload, tokens)
  {
    forall other | ValidToken(profile, other) && StartsWith(payload, |Serialize(done)|, other)
      ensures other == token
    {
      TokensAreUnambiguous(profile, payload, |Serialize(done)|, token, other);
    }
    NoReading(profile, payload, done);
  }

  /** `copy_from_slice` into `out[at..at + bytes.len()]`. */
  method CopyInto(out: array<byte>, at: nat, bytes: seq<byte>)
    requires at + |bytes| <= out.Length
    modifies out
    ensures out[..] == old(out[..at]) + bytes + old(out[at + |bytes|..])
  {
    forall i | 0 <= i < |bytes| {
      out[at + i] := bytes[i];
    }
  }

  // ------------------------------------------------------ encoding the stream

  predicate Matches(page: seq<byte>, offset: nat, bytes: seq<byte>) {
    bytes != [] && offset + |bytes| <= |page| && page[offset..offset + |bytes|] == bytes
  }

  predicate DictMatches(profile: Profile, page: seq<byte>, offset: nat, k: nat)
    requires k < |profile.dictionary|
  {
    offset + 4 <= |page| && ReadLe32(page, offset) == profile.dictionary[k].1
  }

  /** The first of the longest patterns found at `offset`. */
  method BestPatternAt(profile: Profile, page: Page, offset: nat) returns (best: Option<nat>)
    ensures best.Some? ==> best.value < |profile.patterns| && Matches(page, offset, profile.patterns[best.value].1)
    ensures forall j | 0 <= j < |profile.patterns| && Matches(page, offset, profile.patterns[j].1) ::
              && best.Some?
              && |profile.patterns[j].1| <= |profile.patterns[best.value].1|
              && (j < best.value ==> |profile.patterns[j].1| < |profile.patterns[best.value].1|)
  {
    best := None;
    for i := 0 to |profile.patterns|
      invariant best.Some? ==> best.value < i && Matches(page, offset, profile.patterns[best.value].1)
      invariant forall j | 0 <= j < i && Matches(page, offset, profile.patterns[j].1) ::
                  && best.Some?
                  && |profile.patterns[j].1| <= |profile.patterns[best.value].1|
                  && (j < best.value ==> |profile.patterns[j].1| < |profile.patterns[best.value].1|)
    {
      var bytes := profile.patterns[i].1;
      if Matches(page, offset, bytes) && (best.None? || |bytes| > |profile.patterns[best.value].1|) {
        best := Some(i);
      }
    }
  }

  method LookupByWord(profile: Profile, word: nat) returns (r: Option<nat>)
    ensures r.Some? ==> r.value < |profile.dictionary| && profile.dictionary[r.value].1 == word
    ensures r.Some? ==> forall j | 0 <= j < r.value :: profile.dictionary[j].1 != word
    ensures r.None? ==> forall j | 0 <= j < |profile.dictionary| :: profile.dictionary[j].1 != word
  {
    for i := 0 to |profile.dictionary|
      invariant forall j | 0 <= j < i :: profile.dictionary[j].1 != word
    {
      if profile.dictionary[i].1 == word {
        return Some(i);
      }
    }
    return None;
  }

  /** The token that saves most at `offset`; a dictionary word wins a tie. */
  method PickToken(profile: Profile, page: Page, offset: nat) returns (r: Option<Token>)
    requires WellFormed(profile)
    ensures r.Some? ==>
      && ValidToken(profile, r.value)
      && !r.value.Literal?
      && |Expansion(profile, r.value)| >= 4
      && Matches(page, offset, Expansion(profile, r.value))
    ensures forall k | 0 <= k < |profile.dictionary| && DictMatches(profile, page, offset, k) ::
      r.Some? && (r.value.Dict? || |Expansion(profile, r.value)| > 4)
    ensures forall k | 0 <= k < |profile.patterns| && Matches(page, offset, profile.patterns[k].1) ::
      |profile.patterns[k].1| <= 3 || (r.Some? && |profile.patterns[k].1| <= |Expansion(profile, r.value)|)
  {
    r := None;
    if offset + 4 <= PAGE_BYTES {
      var k := LookupByWord(profile, ReadLe32(page, offset));
      if k.Some? {
        var entry := profile.dictionary[k.value];
        r := Some(Dict(entry.0));
        FindByIdAt(profile.dictionary, entry.0, k.value);
        WriteRead32(page, offset);
        assert Expansion(profile, r.value) == page[offset..offset + 4];
      }
    }
    var best := BestPatternAt(profile, page, offset);
    if best.Some? {
      var entry := profile.patterns[best.value];
      if |entry.1| > 3 && (r.None? || |entry.1| - 3 > 1) {
        r := Some(Pattern(entry.0));
        FindByIdAt(profile.patterns, entry.0, best.value);
        assert Expansion(profile, r.value) == entry.1;
      }
    }
  }

  /** The bytes `wire` are valid tokens, each standing for something, that expand to `text`. */
  ghost predicate Holds(profile: Profile, wire: seq<byte>, text: seq<byte>)
    decreases |wire|
  {
    || (wire == [] && text == [])
    || exists token, w, x ::
         && EndsWith(profile, wire, text, token, w, x)
         && |w| < |wire|
         && Holds(profile, w, x)
  }

  ghost predicate EndsWith(profile: Profile, wire: seq<byte>, text: seq<byte>, token: Token, w: seq<byte>, x: seq<byte>) {
    && ValidToken(profile, token)
    && Expansion(profile, token) != []
    && wire == w + TokenBytes(token)
    && text == x + Expansion(profile, token)
  }

  lemma {:induction false} NothingHoldsNothing(profile: Profile, wire: seq<byte>, text: seq<byte>)
    requires |wire| == |text| == 0
    ensures Holds(profile, wire, text)
  {
  }

  lemma {:induction false} HoldsOneMore(profile: Profile, wire: seq<byte>, text: seq<byte>, token: Token)
    requires Holds(profile, wire, text)
    requires ValidToken(profile, token) && Expansion(profile, token) != []
    ensures Holds(profile, wire + TokenBytes(token), text + Expansion(profile, token))
  {
    assert EndsWith(profile, wire + TokenBytes(token), text + Expansion(profile, token), token, wire, text);
  }

  lemma {:induction false} HeldTokens(profile: Profile, wire: seq<byte>, text: seq<byte>) returns (tokens: seq<Token>)
    requires Holds(profile, wire, text)
    ensures AllValid(profile, tokens)
    ensures tokens != [] ==> |Expand(profile, tokens[..|tokens| - 1])| < |text|
    ensures Serialize(tokens) == wire && Expand(profile, tokens) == text
    decreases |wire|
  {
    if wire == [] && text == [] {
      tokens := [];
    } else {
      var token, w, x :| EndsWith(profile, wire, text, token, w, x) && |w| < |wire| && Holds(profile, w, x);
      var front := HeldTokens(profile, w, x);
      Append(profile, front, token);
      tokens := front + [token];
      assert tokens[..|tokens| - 1] == front;
    }
  }

  /** A stream that holds a page is a full reading of it. */
  lemma {:induction false} HeldPageSplits(profile: Profile, wire: seq<byte>, page: Page)
    requires Holds(profile, wire, page)
    ensures exists tokens :: Splits(profile, wire, tokens) && Expand(profile, tokens) == page
  {
    var tokens := HeldTokens(profile, wire, page);
    assert Splits(profile, wire, tokens);
  }

  method EmitToken(profile: Profile, out: array<byte>, base: nat, write: nat, token: Token, ghost text: seq<byte>)
    returns (r: Result<nat, Error>)
    requires base + write <= out.Length && Holds(profile, out[base..base + write], text)
    requires ValidToken(profile, token) && Expansion(profile, token) != []
    modifies out
    ensures r.Ok? ==> r.value == write + |TokenBytes(token)| && base + r.value <= out.Length
    ensures r.Ok? ==> Holds(profile, out[base..base + r.value], text + Expansion(profile, token))
    ensures r.Err? ==> r.error == OutputTooSmall && base + write + |TokenBytes(token)| > out.Length
  {
    hide Holds;
    var bytes := TokenBytes(token);
    if base + write + |bytes| > out.Length {
      return Err(OutputTooSmall);
    }
    HoldsOneMore(profile, out[base..base + write], text, token);
    CopyInto(out, base + write, bytes);
    assert out[base..base + write + |bytes|] == old(out[base..base + write]) + bytes;
    return Ok(write + |bytes|);
  }

  /** What a literal run costs: two bytes more for every 255 of it. */
  function RunBytes(n: nat): nat {
    if n == 0 then 0 else if n <= 255 then n + 2 else 257 + RunBytes(n - 255)
  }

  lemma {:induction false} NextChunk(profile: Profile, bytes: seq<byte>, rest: nat)
    requires 0 < |bytes| <= 255 && (rest > 0 ==> |bytes| == 255)
    ensures ValidToken(profile, Literal(bytes)) && Expansion(profile, Literal(bytes)) == bytes
    ensures |TokenBytes(Literal(bytes))| + RunBytes(rest) == RunBytes(|bytes| + rest)
  {
  }

  lemma {:induction false} ShortRun(n: nat)
    requires n <= 255
    ensures RunBytes(n) == if n == 0 then 0 else n + 2
  {
  }

  lemma {:induction false} ReferenceBytes(token: Token)
    requires !token.Literal?
    ensures |TokenBytes(token)| == 3
  {
  }

  /** Literal runs go out in chunks of at most 255 bytes. */
  method EmitLiteralRun(profile: Profile, out: array<byte>, base: nat, write: nat, bytes: seq<byte>, ghost text: seq<byte>)
    returns (r: Result<nat, Error>)
    requires base + write <= out.Length && Holds(profile, out[base..base + write], text)
    modifies out
    ensures r.Ok? ==> base + r.value <= out.Length && Holds(profile, out[base..base + r.value], text + bytes)
    ensures r.Ok? ==> r.value == write + RunBytes(|bytes|)
    ensures r.Err? ==> r.error == OutputTooSmall && base + write + RunBytes(|bytes|) > out.Length
  {
    hide Holds, TokenBytes, RunBytes, ValidToken, Expansion;
    var offset: nat, at: nat := 0, write;
    ShortRun(0);
    WholeSlice(text, bytes);
    while offset < |bytes|
      invariant offset <= |bytes| && base + at <= out.Length
      invariant Holds(profile, out[base..base + at], text + bytes[..offset])
      invariant at + RunBytes(|bytes| - offset) == write + RunBytes(|bytes|)
    {
      var chunk := if |bytes| - offset < 255 then |bytes| - offset else 255;
      var token := Literal(bytes[offset..offset + chunk]);
      NextChunk(profile, token.bytes, |bytes| - offset - chunk);
      var emitted := EmitToken(profile, out, base, at, token, text + bytes[..offset]);
      if emitted.Err? {
        return Err(emitted.error);
      }
      JoinSlices(text, bytes, offset, offset + chunk);
      at := emitted.value;
      offset := offset + chunk;
    }
    return Ok(at);
  }

  /** Flush the pending literal run `page[start..end]`. */
  method FlushLiterals(profile: Profile, page: Page, out: array<byte>, base: nat, write: nat, start: nat, end: nat)
    returns (r: Result<nat, Error>)
    requires start <= end <= PAGE_BYTES
    requires base + write <= out.Length && Holds(profile, out[base..base + write], page[..start])
    modifies out
    ensures r.Ok? ==> base + r.value <= out.Length && Holds(profile, out[base..base + r.value], page[..end])
    ensures r.Ok? ==> r.value == write + RunBytes(end - start)
    ensures r.Err? ==> r.error == OutputTooSmall && base + write + RunBytes(end - start) > out.Length
  {
    hide Holds;
    r := EmitLiteralRun(profile, out, base, write, page[start..end], page[..start]);
    JoinSlices([], page, start, end);
  }

  /** The encoder's cursors: bytes read and written, and the pending literal run. */
  datatype Cursor = Cursor(read: nat, write: nat, literalStart: nat, literalLen: nat)

  ghost predicate Encoding(profile: Profile, page: Page, out: array<byte>, base: nat, c: Cursor)
    reads out
  {
    && c.literalLen <= c.read <= PAGE_BYTES
    && c.literalLen < 255
    && (c.literalLen > 0 ==> c.literalStart + c.literalLen == c.read)
    && base + c.write <= out.Length
    && 5 * c.write <= 6 * (c.read - c.literalLen)
    && Holds(profile, out[base..base + c.write], page[..c.read - c.literalLen])
  }

  /** Room for any page: a token saves at least one of the two bytes that end the run before it. */
  const WORST_BYTES: nat := (6 * PAGE_BYTES + 9) / 5

  /** A token was found: flush the pending run, then emit the token. */
  method TakeToken(profile: Profile, page: Page, out: array<byte>, base: nat, c: Cursor, token: Token)
    returns (r: Result<Cursor, Error>)
    requires Encoding(profile, page, out, base, c)
    requires ValidToken(profile, token) && Matches(page, c.read, Expansion(profile, token))
    requires !token.Literal? && |Expansion(profile, token)| >= 4
    modifies out
    ensures r.Ok? ==> Encoding(profile, page, out, base, r.value) && r.value.read > c.read
    ensures r.Err? ==> r.error == OutputTooSmall && base + WORST_BYTES > out.Length
  {
    hide Holds, TokenBytes, RunBytes, ValidToken, Expansion;
    var write := c.write;
    ShortRun(c.literalLen);
    ReferenceBytes(token);
    if c.literalLen > 0 {
      var run := FlushLiterals(profile, page, out, base, write, c.literalStart, c.read);
      if run.Err? {
        return Err(run.error);
      }
      write := run.value;
    }
    var emitted := EmitToken(profile, out, base, write, token, page[..c.read]);
    if emitted.Err? {
      return Err(emitted.error);
    }
    var next := c.read + |Expansion(profile, token)|;
    JoinSlices([], page, c.read, next);
    return Ok(Cursor(next, emitted.value, c.literalStart, 0));
  }

  /** No token: the byte joins the pending run, which is flushed at 255 bytes. */
  method TakeLiteral(profile: Profile, page: Page, out: array<byte>, base: nat, c: Cursor)
    returns (r: Result<Cursor, Error>)
    requires Encoding(profile, page, out, base, c) && c.read < PAGE_BYTES
    modifies out
    ensures r.Ok? ==> Encoding(profile, page, out, base, r.value) && r.value.read > c.read
    ensures r.Err? ==> r.error == OutputTooSmall && base + WORST_BYTES > out.Length
  {
    hide Holds;
    var start := if c.literalLen == 0 then c.read else c.literalStart;
    if c.literalLen + 1 < 255 {
      return Ok(Cursor(c.read + 1, c.write, start, c.literalLen + 1));
    }
    var run := FlushLiterals(profile, page, out, base, c.write, start, c.read + 1);
    if run.Err? {
      return Err(run.error);
    }
    return Ok(Cursor(c.read + 1, run.value, start, 0));
  }

  /**
   Greedy tokenisation of a page.  Bytes no token covers collect in a pending
   literal run, which is flushed before a token, when it reaches 255 bytes, and
   at the end.
   */
  method EncodeSxrc(profile: Profile, page: Page, out: array<byte>, base: nat) returns (r: Result<nat, Error>)
    requires WellFormed(profile) && base <= out.Length
    modifies out
    ensures r.Ok? ==> base + r.value <= out.Length && Holds(profile, out[base..base + r.value], page)
    ensures r.Ok? ==> r.value <= WORST_BYTES
    ensures r.Err? ==> r.error == OutputTooSmall && base + WORST_BYTES > out.Length
  {
    hide Holds;
    var c := Cursor(0, 0, 0, 0);
    NothingHoldsNothing(profile, out[base..base + 0], page[..0]);
    while c.read < PAGE_BYTES
      invariant Encoding(profile, page, out, base, c)
      decreases PAGE_BYTES - c.read
    {
      var picked := PickToken(profile, page, c.read);
      var next;
      if picked.Some? {
        next := TakeToken(profile, page, out, base, c, picked.value);
      } else {
        next := TakeLiteral(profile, page, out, base, c);
      }
      if next.Err? {
        return Err(next.error);
      }
      c := next.value;
    }
    WholeSlice([], page);
    assert c.read == |page|;
    if c.literalLen > 0 {
      r := FlushLiterals(profile, page, out, base, c.write, c.literalStart, c.read);
    } else {
      assert page[..c.read - c.literalLen] == page;
      r := Ok(c.write);
    }
  }

  // ------------------------------------------------------------------- header

  const HEADER_BYTES: nat := 16
  const MAX_ENCODED_PAGE_BYTES: nat := HEADER_BYTES + PAGE_BYTES

  datatype Header = Header(kind: Class, payloadLen: nat, checksum: nat)

  function ClassId(kind: Class): byte {
    match kind case Zero => 0 case Same => 1 case Sxrc => 2 case Raw => 3
  }

  function ClassFromId(id: byte): Result<Class, Error> {
    if id == 0 then Ok(Zero)
    else if id == 1 then Ok(Same)
    else if id == 2 then Ok(Sxrc)
    else if id == 3 then Ok(Raw)
    else Err(UnsupportedClass)
  }

  /** The letters HXCP, the version, the kind, both lengths, two reserved bytes and the checksum. */
  function HeaderBytes(h: Header): (bytes: seq<byte>)
    ensures |bytes| == HEADER_BYTES
  {
    [0x48, 0x58, 0x43, 0x50, 1, ClassId(h.kind)] + Le16(h.payloadLen) + Le16(PAGE_BYTES) + [0, 0] + Le32(h.checksum)
  }

  function DecodeHeader(input: seq<byte>): Result<Header, Error> {
    if |input| < HEADER_BYTES then Err(TruncatedInput)
    else if input[..4] != [0x48, 0x58, 0x43, 0x50] then Err(InvalidHeaderMagic)
    else if input[4] != 1 then Err(UnsupportedHeaderVersion)
    else if ClassFromId(input[5]).Err? then Err(ClassFromId(input[5]).error)
    else if ReadLe16(input, 8) != PAGE_BYTES then Err(InvalidDecodedLength)
    else Ok(Header(ClassFromId(input[5]).value, ReadLe16(input, 6), ReadLe32(input, 12)))
  }

  lemma {:induction false} ReadSlice16(bytes: seq<byte>, at: nat, v: nat)
    requires at + 2 <= |bytes| && v < 0x1_0000 && bytes[at..at + 2] == Le16(v)
    ensures ReadLe16(bytes, at) == v
  {
    ReadWritten16(v);
    assert bytes[at] == bytes[at..at + 2][0] && bytes[at + 1] == bytes[at..at + 2][1];
  }

  lemma {:induction false} ReadSlice32(bytes: seq<byte>, at: nat, v: nat)
    requires at + 4 <= |bytes| && v < 0x1_0000_0000 && bytes[at..at + 4] == Le32(v)
    ensures ReadLe32(bytes, at) == v
  {
    hide Le32, ReadLe16;
    calc {
      ReadLe32(bytes, at);
      { SameSlice16(bytes, at, Le32(v), 0); SameSlice16(bytes, at + 2, Le32(v), 2); }
      ReadLe32(Le32(v), 0);
      { ReadWritten32(v); }
      v;
    }
  }

  lemma {:induction false} SameSlice16(a: seq<byte>, i: nat, b: seq<byte>, j: nat)
    requires i + 2 <= |a| && j + 2 <= |b| && a[i] == b[j] && a[i + 1] == b[j + 1]
    ensures ReadLe16(a, i) == ReadLe16(b, j)
  {
  }

  /** Decoding an encoded header gives it back, whatever follows it. */
  lemma {:induction false} DecodeHeaderOfEncoded(h: Header, rest: seq<byte>)
    requires h.payloadLen < 0x1_0000 && h.checksum < 0x1_0000_0000
    ensures DecodeHeader(HeaderBytes(h) + rest) == Ok(h)
  {
    hide Le16, Le32, ReadLe16, ReadLe32;
    var input := HeaderBytes(h) + rest;
    assert input[..4] == [0x48, 0x58, 0x43, 0x50];
    assert input[6..8] == Le16(h.payloadLen);
    assert input[8..10] == Le16(PAGE_BYTES);
    assert input[12..16] == Le32(h.checksum);
    ReadSlice16(input, 6, h.payloadLen);
    ReadSlice16(input, 8, PAGE_BYTES);
    ReadSlice32(input, 12, h.checksum);
  }

  method EncodeHeaderInto(h: Header, out: array<byte>) returns (r: Result<(), Error>)
    modifies out
    ensures r == if out.Length < HEADER_BYTES then Err(OutputTooSmall) else Ok(())
    ensures r.Ok? ==> out[..] == HeaderBytes(h) + old(out[HEADER_BYTES..])
    ensures r.Err? ==> out[..] == old(out[..])
  {
    if out.Length < HEADER_BYTES {
      return Err(OutputTooSmall);
    }
    CopyInto(out, 0, HeaderBytes(h));
    return Ok(());
  }

  // -------------------------------------------------------------- whole pages

  function Fill(b: byte): Page {
    seq(PAGE_BYTES, _ => b)
  }

  ghost predicate PayloadHolds(profile: Profile, kind: Class, payload: seq<byte>, page: Page) {
    match kind
    case Zero => payload == [] && page == Fill(0)
    case Same => |payload| == 1 && page == Fill(payload[0])
    case Raw => payload == page
    case Sxrc => exists tokens :: Splits(profile, payload, tokens) && Expand(profile, tokens) == page
  }

  /** `encoded` is a well-framed encoding of `page` in the given kind. */
  ghost predicate Represents(profile: Profile, encoded: seq<byte>, kind: Class, page: Page) {
    && |encoded| >= HEADER_BYTES
    && DecodeHeader(encoded) == Ok(Header(kind, |encoded| - HEADER_BYTES, Fnv.Hash(encoded[HEADER_BYTES..])))
    && PayloadHolds(profile, kind, encoded[HEADER_BYTES..], page)
  }

  /** An encoding determines its kind and its page. */
  lemma {:induction false} RepresentsOnePage(profile: Profile, encoded: seq<byte>, c1: Class, p1: Page, c2: Class, p2: Page)
    requires Represents(profile, encoded, c1, p1) && Represents(profile, encoded, c2, p2)
    ensures c1 == c2 && p1 == p2
  {
    hide Serialize, Expand, DecodeHeader;
    if c1 == Sxrc {
      var payload := encoded[HEADER_BYTES..];
      var t1 :| Splits(profile, payload, t1) && Expand(profile, t1) == p1;
      var t2 :| Splits(profile, payload, t2) && Expand(profile, t2) == p2;
      OneReading(profile, payload, t1, t2, 0);
    }
  }

  /** A payload has at most one full reading. */
  lemma {:induction false} OneReading(profile: Profile, payload: seq<byte>, t1: seq<Token>, t2: seq<Token>, k: nat)
    requires Splits(profile, payload, t1) && Splits(profile, payload, t2)
    requires k <= |t1| && k <= |t2| && t1[..k] == t2[..k]
    ensures t1 == t2
    decreases |t1| - k
  {
    hide Serialize, Expand, StartsWith;
    if k == |t1| || k == |t2| {
      SameLength(profile, payload, t1, t2, k);
    } else {
      var done := t1[..k];
      TokenInPlace(profile, t1, done);
      TokenInPlace(profile, t2, done);
      TokensAreUnambiguous(profile, payload, |Serialize(done)|, t1[k], t2[k]);
      OneReading(profile, payload, t1, t2, k + 1);
    }
  }

  lemma {:induction false} SameLength(profile: Profile, payload: seq<byte>, t1: seq<Token>, t2: seq<Token>, k: nat)
    requires Splits(profile, payload, t1) && Splits(profile, payload, t2)
    requires k <= |t1| && k <= |t2| && t1[..k] == t2[..k]
    requires k == |t1| || k == |t2|
    ensures t1 == t2
  {
    hide Serialize, Expand;
    if k < |t1| {
      PrefixOfStream(profile, t2, t1[..|t1| - 1]);
    } else if k < |t2| {
      PrefixOfStream(profile, t1, t2[..|t2| - 1]);
    }
  }

  /** A frame around a payload that holds the page is an encoding of the page. */
  lemma {:induction false} FramedPayload(profile: Profile, encoded: seq<byte>, kind: Class, payload: seq<byte>, page: Page)
    requires |payload| <= PAGE_BYTES && PayloadHolds(profile, kind, payload, page)
    requires encoded == HeaderBytes(Header(kind, |payload|, Fnv.Hash(payload))) + payload
    ensures Represents(profile, encoded, kind, page)
  {
    hide PayloadHolds, HeaderBytes, DecodeHeader, Fnv.Hash;
    DecodeHeaderOfEncoded(Header(kind, |payload|, Fnv.Hash(payload)), payload);
    assert encoded[HEADER_BYTES..] == payload;
  }

  predicate AllBytes(page: Page, b: byte) {
    forall i | 0 <= i < PAGE_BYTES :: page[i] == b
  }

  /** Choose the class of a page and lay its payload out after the header. */
  method LayOutPayload(profile: Profile, page: Page, scratch: array<byte>) returns (r: Result<(Class, nat), Error>)
    requires WellFormed(profile) && scratch.Length >= HEADER_BYTES
    modifies scratch
    ensures r.Err? ==> r.error == OutputTooSmall && scratch.Length < MAX_ENCODED_PAGE_BYTES
    ensures r.Ok? ==> HEADER_BYTES + r.value.1 <= scratch.Length && r.value.1 <= PAGE_BYTES
    ensures r.Ok? ==> PayloadHolds(profile, r.value.0, scratch[HEADER_BYTES..HEADER_BYTES + r.value.1], page)
    ensures r.Ok? ==> (r.value.0 == Zero <==> page == Fill(0))
    ensures r.Ok? ==> (r.value.0 == Same <==> page != Fill(0) && page == Fill(page[0]))
    ensures r.Ok? && r.value.0 == Sxrc ==> r.value.1 < PAGE_BYTES
  {
    hide Splits, Expand, Holds;
    if AllBytes(page, 0) {
      assert page == Fill(0);
      return Ok((Zero, 0));
    }
    if AllBytes(page, page[0]) {
      assert page == Fill(page[0]);
      if scratch.Length < HEADER_BYTES + 1 {
        return Err(OutputTooSmall);
      }
      scratch[HEADER_BYTES] := page[0];
      return Ok((Same, 1));
    }
    if scratch.Length < MAX_ENCODED_PAGE_BYTES {
      return Err(OutputTooSmall);
    }
    var sxrc := EncodeSxrc(profile, page, scratch, HEADER_BYTES);
    if sxrc.Ok? && sxrc.value < PAGE_BYTES {
      HeldPageSplits(profile, scratch[HEADER_BYTES..HEADER_BYTES + sxrc.value], page);
      return Ok((Sxrc, sxrc.value));
    }
    CopyInto(scratch, HEADER_BYTES, page);
    assert scratch[HEADER_BYTES..HEADER_BYTES + PAGE_BYTES] == page;
    return Ok((Raw, PAGE_BYTES));
  }

  /**
   Encoding fails only for want of space, never when the buffer has the maximal
   encoded size, and leaves a framed encoding of the page in the buffer.
   */
  method EncodePage(profile: Profile, page: Page, scratch: array<byte>) returns (r: Result<(Class, nat), Error>)
    requires WellFormed(profile)
    modifies scratch
    ensures r.Err? ==> r.error == OutputTooSmall && scratch.Length < MAX_ENCODED_PAGE_BYTES
    ensures r.Ok? ==> HEADER_BYTES <= r.value.1 <= MAX_ENCODED_PAGE_BYTES && r.value.1 <= scratch.Length
    ensures r.Ok? ==> Represents(profile, scratch[..r.value.1], r.value.0, page)
    ensures r.Ok? ==> (r.value.0 == Zero <==> page == Fill(0))
    ensures r.Ok? ==> (r.value.0 == Same <==> page != Fill(0) && page == Fill(page[0]))
    ensures r.Ok? && r.value.0 == Sxrc ==> r.value.1 < MAX_ENCODED_PAGE_BYTES
  {
    hide PayloadHolds, HeaderBytes, Represents, Fill;
    if scratch.Length < HEADER_BYTES {
      return Err(OutputTooSmall);
    }
    var laid := LayOutPayload(profile, page, scratch);
    if laid.Err? {
      return Err(laid.error);
    }
    var kind, len := laid.value.0, laid.value.1;
    var payload := scratch[HEADER_BYTES..HEADER_BYTES + len];
    var checksum := Fnv.Fnv1a32(payload);
    var header := Header(kind, len, checksum);
    var framed := EncodeHeaderInto(header, scratch);
    assert scratch[..HEADER_BYTES + len] == HeaderBytes(header) + payload;
    FramedPayload(profile, scratch[..HEADER_BYTES + len], kind, payload, page);
    return Ok((kind, HEADER_BYTES + len));
  }

  /** Decode the payload of a checked frame. */
  method DecodePayload(profile: Profile, kind: Class, payload: seq<byte>, out: array<byte>) returns (ok: bool)
    requires out.Length == PAGE_BYTES
    modifies out
    ensures ok ==> PayloadHolds(profile, kind, payload, out[..])
    ensures !ok ==> forall page: Page :: !PayloadHolds(profile, kind, payload, page)
  {
    hide Splits, Expand;
    match kind
    case Zero =>
      ok := payload == [];
      if ok {
        CopyInto(out, 0, Fill(0));
        assert out[..] == Fill(0);
      }
    case Same =>
      ok := |payload| == 1;
      if ok {
        CopyInto(out, 0, Fill(payload[0]));
        assert out[..] == Fill(payload[0]);
      }
    case Raw =>
      ok := |payload| == PAGE_BYTES;
      if ok {
        CopyInto(out, 0, payload);
        assert out[..] == payload;
      }
    case Sxrc =>
      var decoded := DecodeSxrc(profile, payload, out);
      ok := decoded.Ok?;
  }

  /**
   Decoding succeeds exactly on the encodings of a page, and then gives the page
   and its class; a damaged frame is reported by the first check it fails.
   */
  method DecodePage(profile: Profile, encoded: seq<byte>, out: array<byte>) returns (r: Result<Class, Error>)
    requires out.Length == PAGE_BYTES
    modifies out
    ensures r.Ok? ==> Represents(profile, encoded, r.value, out[..])
    ensures r.Err? ==> forall kind, page: Page :: !Represents(profile, encoded, kind, page)
    ensures DecodeHeader(encoded).Err? ==> r == Err(DecodeHeader(encoded).error)
    ensures DecodeHeader(encoded).Ok? && r.Err? ==>
      r.error == if |encoded| == HEADER_BYTES + DecodeHeader(encoded).value.payloadLen
                    && Fnv.Hash(encoded[HEADER_BYTES..]) != DecodeHeader(encoded).value.checksum
                 then ChecksumMismatch else InvalidPayloadLength
  {
    hide PayloadHolds, ClassFromId, ReadLe16, ReadLe32;
    var decoded := DecodeHeader(encoded);
    if decoded.Err? {
      return Err(decoded.error);
    }
    var header := decoded.value;
    if |encoded| != HEADER_BYTES + header.payloadLen {
      return Err(InvalidPayloadLength);
    }
    var payload := encoded[HEADER_BYTES..];
    var checksum := Fnv.Fnv1a32(payload);
    if checksum != header.checksum {
      return Err(ChecksumMismatch);
    }
    var ok := DecodePayload(profile, header.kind, payload, out);
    if !ok {
      return Err(InvalidPayloadLength);
    }
    return Ok(header.kind);
  }

  /** Encoding any page into a buffer of the maximal size and decoding it gives back the page and its class. */
  method RoundTrip(profile: Profile, page: Page, scratch: array<byte>, out: array<byte>)
    returns (encodedAs: Class, decodedAs: Class, length: nat)
    requires WellFormed(profile) && scratch.Length >= MAX_ENCODED_PAGE_BYTES
    requires out.Length == PAGE_BYTES && out != scratch
    modifies scratch, out
    ensures out[..] == page && decodedAs == encodedAs && HEADER_BYTES <= length <= MAX_ENCODED_PAGE_BYTES
    ensures encodedAs == Zero <==> page == Fill(0)
  {
    hide Represents, Fill;
    var encoded := EncodePage(profile, page, scratch);
    ghost var bytes := scratch[..encoded.value.1];
    var decoded := DecodePage(profile, scratch[..encoded.value.1], out);
    RepresentsOnePage(profile, bytes, encoded.value.0, page, decoded.value, out[..]);
    return encoded.value.0, decoded.value, encoded.value.1;
  }
}
