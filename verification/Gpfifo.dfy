/** GPFIFO descriptors: decoding of hardware-format entries and retention of their command
    sources, after the GP-entry section of NVIDIA's dev_pbdma reference. */
module Gpfifo {
  import opened ByteOrder
  import opened Canonical

  const TWO_32: nat := 0x1_0000_0000
  const TWO_31: nat := 0x8000_0000

  /** Bit `i` of a word, given 2^i. */
  predicate Bit(word: nat, power: nat)
    requires power > 0
  {
    (word / power) % 2 == 1
  }

  function Flag(on: bool, power: nat): nat {
    if on then power else 0
  }

  // ----- one descriptor -----

  datatype Entry = Entry(address: nat, wordCount: nat, allowFlush: bool, subroutine: bool, wait: bool) {
    /** A word-aligned range of command words that ends below the address limit. */
    predicate Valid() {
      && address % 4 == 0
      && 0 < wordCount < 0x20_0000
      && address + 4 * wordCount < ADDRESS_LIMIT
    }

    function ByteCount(): nat {
      4 * wordCount
    }
  }

  datatype EntryError =
    | ReservedEntryBit
    | ConditionalFetch
    | ControlEntry(opcode: nat)
    | PushbufferRangeOutOfRange(address: nat, words: nat)

  function AddressOf(word0: U32, word1: U32): nat {
    (word0 - word0 % 4) + (word1 % 256) * TWO_32
  }

  function WordCount(word1: U32): nat {
    (word1 / 1024) % 0x20_0000
  }

  predicate Acceptable(word0: U32, word1: U32) {
    && word0 % 4 == 0
    && WordCount(word1) != 0
    && AddressOf(word0, word1) + 4 * WordCount(word1) < ADDRESS_LIMIT
  }

  function EncodeWord0(e: Entry): nat {
    e.address % TWO_32
  }

  function EncodeWord1(e: Entry): nat {
    e.address / TWO_32 + Flag(e.allowFlush, 256) + Flag(e.subroutine, 512) + 1024 * e.wordCount + Flag(e.wait, TWO_31)
  }

  lemma LowBits(word: nat)
    ensures !Bit(word, 2) && !Bit(word, 1) <==> word % 4 == 0
  {
    var q, r := word / 4, word % 4;
    assert word == 4 * q + r;
    assert word / 2 == 2 * q + r / 2;
  }

  lemma AddressAligned(word0: U32, word1: U32)
    ensures AddressOf(word0, word1) % 4 == 0
  {
    var q := word0 / 4;
    assert word0 - word0 % 4 == 4 * q;
    assert AddressOf(word0, word1) == 4 * (q + (word1 % 256) * 0x4000_0000);
  }

  lemma CountBound(word1: U32)
    ensures WordCount(word1) < 0x20_0000
  {
  }

  function DecodeEntry(word0: U32, word1: U32): (r: Result<Entry, EntryError>)
    ensures r.Ok? <==> Acceptable(word0, word1)
    ensures r.Ok? ==> r.value.Valid()
  {
    hide Bit, AddressOf, WordCount;
    LowBits(word0);
    AddressAligned(word0, word1);
    CountBound(word1);
    if Bit(word0, 2) then Err(ReservedEntryBit)
    else if Bit(word0, 1) then Err(ConditionalFetch)
    else if WordCount(word1) == 0 then Err(ControlEntry(word1 % 256))
    else if ADDRESS_LIMIT <= AddressOf(word0, word1) + 4 * WordCount(word1) then
      Err(PushbufferRangeOutOfRange(AddressOf(word0, word1), WordCount(word1)))
    else
      Ok(Entry(AddressOf(word0, word1), WordCount(word1), Bit(word1, 256), Bit(word1, 512), Bit(word1, TWO_31)))
  }

  /** The fields of a word add up to the word. */
  lemma WordFields(word1: U32)
    ensures word1 == word1 % 256 + Flag(Bit(word1, 256), 256) + Flag(Bit(word1, 512), 512)
                     + 1024 * WordCount(word1) + Flag(Bit(word1, TWO_31), TWO_31)
  {
    var a := word1 / 256;
    var b := a / 2;
    var c := b / 2;
    assert a / 2 == word1 / 512 && b / 2 == word1 / 1024;
    assert c / 0x20_0000 == word1 / TWO_31;
    assert word1 / TWO_31 < 2;
  }

  /** Decoding loses nothing: the entry encodes to the same words. */
  lemma EncodeDecoded(word0: U32, word1: U32)
    requires Acceptable(word0, word1)
    ensures EncodeWord0(DecodeEntry(word0, word1).value) == word0
    ensures EncodeWord1(DecodeEntry(word0, word1).value) == word1
  {
    WordFields(word1);
    assert AddressOf(word0, word1) % TWO_32 == word0;
    assert AddressOf(word0, word1) / TWO_32 == word1 % 256;
  }

  /** The fields that were packed into a word can be read back. */
  lemma PackedFields(high: nat, a: nat, b: nat, count: nat, c: nat, w: nat)
    requires high < 256 && a < 2 && b < 2 && c < 2 && count < 0x20_0000
    requires w == high + 256 * a + 512 * b + 1024 * count + 0x8000_0000 * c
    ensures w < 0x1_0000_0000 && w % 256 == high
    ensures (w / 256) % 2 == a && (w / 512) % 2 == b && (w / 1024) % 0x20_0000 == count && (w / 0x8000_0000) % 2 == c
  {
    assert w / 256 == a + 2 * (b + 2 * (count + 0x20_0000 * c));
    assert w / 512 == b + 2 * (count + 0x20_0000 * c);
    assert w / 1024 == count + 0x20_0000 * c;
    assert w / 0x8000_0000 == c;
  }

  lemma AddressParts(address: nat, high: nat, low: nat)
    requires address % 4 == 0 && address < ADDRESS_LIMIT && high == address / TWO_32 && low == address % TWO_32
    ensures address == TWO_32 * high + low && high < 256 && low % 4 == 0 && low < TWO_32
  {
    assert address == TWO_32 * high + low;
    assert low == address - 4 * (0x4000_0000 * high);
  }

  lemma AddressBack(address: nat, high: nat, low: U32, w: U32)
    requires address == TWO_32 * high + low && low % 4 == 0 && w % 256 == high
    ensures AddressOf(low, w) == address
  {
  }

  lemma PackedBits(e: Entry, w: U32)
    requires (w / 256) % 2 == Flag(e.allowFlush, 1) && (w / 512) % 2 == Flag(e.subroutine, 1)
    requires (w / 1024) % 0x20_0000 == e.wordCount && (w / TWO_31) % 2 == Flag(e.wait, 1)
    ensures Bit(w, 256) == e.allowFlush && Bit(w, 512) == e.subroutine && Bit(w, TWO_31) == e.wait
    ensures WordCount(w) == e.wordCount
  {
  }

  /** Decoding invents nothing: every valid entry is what its encoding decodes to. */
  lemma DecodeEncoded(e: Entry)
    requires e.Valid()
    ensures EncodeWord0(e) < U32_LIMIT && EncodeWord1(e) < U32_LIMIT
    ensures DecodeEntry(EncodeWord0(e), EncodeWord1(e)) == Ok(e)
  {
    hide Bit, AddressOf, WordCount;
    var high, low, w := e.address / TWO_32, e.address % TWO_32, EncodeWord1(e);
    AddressParts(e.address, high, low);
    PackedFields(high, Flag(e.allowFlush, 1), Flag(e.subroutine, 1), e.wordCount, Flag(e.wait, 1), w);
    PackedBits(e, w);
    AddressBack(e.address, high, low, w);
  }

  // ----- a whole request -----

  datatype SubmitRequest = SubmitRequest(entryCount: U32, flags: U32, fenceId: U32, fenceValue: U32)

  datatype Mode = Mode(fenceWait: bool, fenceGet: bool, suppressWfi: bool, skipRefcounting: bool, fenceIncrement: bool)

  datatype Decoded = Decoded(mode: Mode, fenceId: U32, fenceValue: U32, entries: seq<Entry>)

  datatype DecodeError =
    | EntryCountExceedsAllocation(requested: U32, capacity: U32)
    | EntryByteCountMismatch(expected: nat, actual: nat)
    | UnknownSubmitFlags(flags: nat)
    | NonHardwareDescriptorFormat
    | SyncFenceFileDescriptor
    | ConflictingFenceCompletionModes
    | ZeroFenceIncrementValue
    | InvalidEntry(index: nat, error: EntryError)

  /** The bits outside the known submit flags, which are bits 0 to 5 and bit 8. */
  function UnknownFlags(flags: U32): nat {
    flags - flags % 64 - Flag(Bit(flags, 256), 256)
  }

  function ModeOf(flags: U32): Mode {
    Mode(Bit(flags, 1), Bit(flags, 2), Bit(flags, 16), Bit(flags, 32), Bit(flags, 256))
  }

  function EncodeFlags(mode: Mode): nat {
    Flag(mode.fenceWait, 1) + Flag(mode.fenceGet, 2) + 4 + Flag(mode.suppressWfi, 16) + Flag(mode.skipRefcounting, 32)
    + Flag(mode.fenceIncrement, 256)
  }

  predicate RequestAcceptable(capacity: U32, request: SubmitRequest, size: nat) {
    && request.entryCount <= capacity
    && size == 8 * request.entryCount
    && request.flags == EncodeFlags(ModeOf(request.flags))
    && (Bit(request.flags, 256) ==> !Bit(request.flags, 2) && request.fenceValue != 0)
  }

  function CheckRequest(capacity: U32, request: SubmitRequest, size: nat): (r: Result<(), DecodeError>)
    ensures r.Ok? <==> RequestAcceptable(capacity, request, size)
    ensures r.Err? ==> !r.error.InvalidEntry?
  {
    var flags := request.flags;
    FlagFields(flags);
    if capacity < request.entryCount then Err(EntryCountExceedsAllocation(request.entryCount, capacity))
    else if size != 8 * request.entryCount then Err(EntryByteCountMismatch(8 * request.entryCount, size))
    else if UnknownFlags(flags) != 0 then Err(UnknownSubmitFlags(UnknownFlags(flags)))
    else if !Bit(flags, 4) then Err(NonHardwareDescriptorFormat)
    else if Bit(flags, 8) then Err(SyncFenceFileDescriptor)
    else if Bit(flags, 256) && Bit(flags, 2) then Err(ConflictingFenceCompletionModes)
    else if Bit(flags, 256) && request.fenceValue == 0 then Err(ZeroFenceIncrementValue)
    else Ok(())
  }

  /** The mode encodes to the flags exactly when no flag is unknown, the hardware format is
      selected and no sync fence is passed. */
  lemma FlagFields(flags: U32)
    ensures flags == EncodeFlags(ModeOf(flags)) <==> UnknownFlags(flags) == 0 && Bit(flags, 4) && !Bit(flags, 8)
  {
    var low := flags % 64;
    LowFlags(flags);
    assert low == Flag(Bit(flags, 1), 1) + Flag(Bit(flags, 2), 2) + Flag(Bit(flags, 4), 4) + Flag(Bit(flags, 8), 8)
                  + Flag(Bit(flags, 16), 16) + Flag(Bit(flags, 32), 32);
  }

  lemma ThreeBits(x: nat)
    ensures x % 8 == Flag(Bit(x, 1), 1) + Flag(Bit(x, 2), 2) + Flag(Bit(x, 4), 4)
  {
    assert x / 1 == x && x / 4 == x / 2 / 2 && x / 8 == x / 4 / 2;
  }

  lemma NextThreeBits(x: nat)
    ensures 8 * (x / 8 % 8) == Flag(Bit(x, 8), 8) + Flag(Bit(x, 16), 16) + Flag(Bit(x, 32), 32)
  {
    ThreeBits(x / 8);
    assert x / 8 / 1 == x / 8 && x / 8 / 2 == x / 16 && x / 8 / 4 == x / 32;
  }

  lemma SixBits(x: nat)
    ensures x % 64 == x % 8 + 8 * (x / 8 % 8)
  {
    assert x / 64 == x / 8 / 8;
  }

  lemma LowFlags(flags: U32)
    ensures flags % 64 == Flag(Bit(flags, 1), 1) + Flag(Bit(flags, 2), 2) + Flag(Bit(flags, 4), 4)
                          + Flag(Bit(flags, 8), 8) + Flag(Bit(flags, 16), 16) + Flag(Bit(flags, 32), 32)
  {
    hide Flag, Bit;
    ThreeBits(flags);
    NextThreeBits(flags);
    SixBits(flags);
  }

  // ----- the descriptor array -----

  /** The little-endian word at byte `at`. */
  function WordAt(bytes: seq<U8>, at: nat): (w: U32)
    requires at + 4 <= |bytes|
    ensures ToLittleEndian(w, 4) == bytes[at..at + 4]
  {
    LoadedBytes(bytes[at..at + 4]);
    assert Power256(4) == U32_LIMIT;
    FromLittleEndian(bytes[at..at + 4])
  }

  function EncodeEntry(e: Entry): (bytes: seq<U8>)
    ensures |bytes| == 8
  {
    ToLittleEndian(EncodeWord0(e), 4) + ToLittleEndian(EncodeWord1(e), 4)
  }

  function EncodeEntries(entries: seq<Entry>): (bytes: seq<U8>)
    ensures |bytes| == 8 * |entries|
    decreases |entries|
  {
    if entries == [] then []
    else EncodeEntries(entries[..|entries| - 1]) + EncodeEntry(entries[|entries| - 1])
  }

  predicate AcceptableAt(bytes: seq<U8>, i: nat)
    requires 8 * i + 8 <= |bytes|
  {
    Acceptable(WordAt(bytes, 8 * i), WordAt(bytes, 8 * i + 4))
  }

  function DecodeAt(bytes: seq<U8>, i: nat): (r: Result<Entry, EntryError>)
    requires 8 * i + 8 <= |bytes|
    ensures r.Ok? <==> AcceptableAt(bytes, i)
    ensures r.Ok? ==> r.value.Valid() && EncodeEntry(r.value) == bytes[8 * i..8 * i + 8]
  {
    var word0, word1 := WordAt(bytes, 8 * i), WordAt(bytes, 8 * i + 4);
    if Acceptable(word0, word1) then
      EncodeDecoded(word0, word1);
      assert bytes[8 * i..8 * i + 8] == bytes[8 * i..8 * i + 4] + bytes[8 * i + 4..8 * i + 8];
      DecodeEntry(word0, word1)
    else DecodeEntry(word0, word1)
  }

  lemma EncodeStep(bytes: seq<U8>, entries: seq<Entry>, e: Entry, n: nat)
    requires n == 8 * |entries| && n + 8 <= |bytes|
    requires EncodeEntries(entries) == bytes[..n] && EncodeEntry(e) == bytes[n..n + 8]
    ensures EncodeEntries(entries + [e]) == bytes[..n + 8]
  {
    assert (entries + [e])[..|entries|] == entries;
    assert bytes[..n] + bytes[n..n + 8] == bytes[..n + 8];
  }

  /** The accepted entries encode to the very bytes that were given, and so do the flags. */
  ghost predicate DecodesTo(request: SubmitRequest, bytes: seq<U8>, d: Decoded) {
    && EncodeEntries(d.entries) == bytes
    && (forall i :: 0 <= i < |d.entries| ==> d.entries[i].Valid())
    && EncodeFlags(d.mode) == request.flags
    && d.fenceId == request.fenceId
    && d.fenceValue == request.fenceValue
  }

  /** A rejected entry is the first that cannot be accepted. */
  ghost predicate DecodeFails(capacity: U32, request: SubmitRequest, bytes: seq<U8>, error: DecodeError) {
    if error.InvalidEntry? then
      && RequestAcceptable(capacity, request, |bytes|)
      && 8 * error.index + 8 <= |bytes|
      && DecodeAt(bytes, error.index) == Err(error.error)
      && forall i: nat :: i < error.index ==> AcceptableAt(bytes, i)
    else CheckRequest(capacity, request, |bytes|) == Err(error)
  }

  ghost predicate AllAcceptable(bytes: seq<U8>) {
    forall i: nat :: 8 * i + 8 <= |bytes| ==> AcceptableAt(bytes, i)
  }

  /** The first `i` entries are decoded. */
  ghost predicate Decoding(bytes: seq<U8>, entries: seq<Entry>, i: nat) {
    && |entries| == i
    && 8 * i <= |bytes|
    && EncodeEntries(entries) == bytes[..8 * i]
    && forall j :: 0 <= j < i ==> AcceptableAt(bytes, j) && entries[j].Valid()
  }

  lemma DecodingStart(bytes: seq<U8>)
    ensures Decoding(bytes, [], 0)
  {
  }

  lemma DecodingStep(bytes: seq<U8>, entries: seq<Entry>, i: nat, entry: Entry)
    requires Decoding(bytes, entries, i) && 8 * i + 8 <= |bytes| && DecodeAt(bytes, i) == Ok(entry)
    ensures Decoding(bytes, entries + [entry], i + 1)
  {
    hide AcceptableAt, DecodeAt, EncodeEntry, EncodeEntries, Entry.Valid;
    EncodeStep(bytes, entries, entry, 8 * i);
  }

  lemma DecodingDone(request: SubmitRequest, bytes: seq<U8>, entries: seq<Entry>, n: nat)
    requires Decoding(bytes, entries, n) && |bytes| == 8 * n && request.flags == EncodeFlags(ModeOf(request.flags))
    ensures AllAcceptable(bytes)
    ensures DecodesTo(request, bytes, Decoded(ModeOf(request.flags), request.fenceId, request.fenceValue, entries))
  {
    hide AcceptableAt, EncodeEntries, Entry.Valid, EncodeFlags, ModeOf;
    assert bytes[..8 * n] == bytes;
  }

  /** Decodes a whole request or nothing. */
  method DecodeSubmission(capacity: U32, request: SubmitRequest, bytes: seq<U8>)
    returns (r: Result<Decoded, DecodeError>)
    ensures r.Ok? <==> RequestAcceptable(capacity, request, |bytes|) && AllAcceptable(bytes)
    ensures r.Ok? ==> DecodesTo(request, bytes, r.value)
    ensures r.Err? ==> DecodeFails(capacity, request, bytes, r.error)
  {
    hide AcceptableAt, DecodeAt, EncodeEntry, EncodeEntries, EncodeFlags, ModeOf, CheckRequest, Bit, DecodesTo;
    var check := CheckRequest(capacity, request, |bytes|);
    if check.Err? { return Err(check.error); }
    var entries: seq<Entry> := [];
    DecodingStart(bytes);
    for i := 0 to request.entryCount
      invariant Decoding(bytes, entries, i)
    {
      var entry := DecodeAt(bytes, i);
      if entry.Err? { return Err(InvalidEntry(i, entry.error)); }
      DecodingStep(bytes, entries, i, entry.value);
      entries := entries + [entry.value];
    }
    DecodingDone(request, bytes, entries, request.entryCount);
    r := Ok(Decoded(ModeOf(request.flags), request.fenceId, request.fenceValue, entries));
  }
}
