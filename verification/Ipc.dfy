/**
 IPC messages: one side lays out a header, handles and an aligned payload in a buffer of words,
 the other side recovers them. Messages to domain objects are not part of this model.
 */
module Ipc {
  import opened Bits

  /** Length of a message buffer in words. */
  const BUFFER_WORDS: nat := 64

  /** The payload's magic, the characters S F C O from the lowest byte up. */
  const SFCO: u32 := 0x4f43_4653

  const HD_BIT: nat := 0x8000_0000

  type Buffer = buf: seq<u32> | |buf| == 64 witness seq(64, _ => 0)

  /** The next position at a 16-byte boundary. */
  function Align4(pos: nat): (r: nat)
    ensures r % 4 == 0 && pos <= r < pos + 4
  {
    if pos % 4 != 0 then pos + (4 - pos % 4) else pos
  }

  // ---------------------------------------------------------------- building

  predicate HasHandles(move: nat, copy: nat) {
    move != 0 || copy != 0
  }

  /** Words of the handle descriptor and the handles. */
  function HandleWords(move: nat, copy: nat): nat {
    if HasHandles(move, copy) then 1 + move + copy else 0
  }

  /** Word at which the payload of a built message begins. */
  function PayloadWord(move: nat, copy: nat): nat {
    Align4(2 + HandleWords(move, copy))
  }

  /** The data bytes, in whole words. */
  function DataWords(bytes: nat): nat {
    if bytes % 4 != 0 then bytes / 4 + 1 else bytes / 4
  }

  lemma DataWordsIsCeiling(bytes: nat)
    ensures 4 * DataWords(bytes) >= bytes > 4 * DataWords(bytes) - 4
  {
  }

  /** The handle descriptor: four bits for copied handles above the process id bit, then moved handles. */
  function Descriptor(move: nat, copy: nat): u32 {
    Or32(Wrap32(Scale(copy, 1)), Wrap32(Scale(move, 5)))
  }

  /** The buffer after `GenBuf`. The second word is not cleared when there are no handles. */
  function Built(buf: Buffer, move: nat, copy: nat, bytes: nat): (after: Buffer)
    requires PayloadWord(move, copy) < BUFFER_WORDS
  {
    var headed := if HasHandles(move, copy) then buf[0 := 0][1 := HD_BIT][2 := Descriptor(move, copy)] else buf[0 := 0];
    var counted := headed[1 := Or32(headed[1], Wrap32(8 + DataWords(bytes)))];
    counted[PayloadWord(move, copy) := SFCO]
  }

  // ---------------------------------------------------------------- parsing

  /** `len` bits of a word from bit `from` up. */
  function Field(w: u32, from: nat, len: nat): (field: nat)
    ensures field < Pow2(len)
  {
    Split(Shr(w, from), len);
    Low(Shr(w, from), len)
  }

  predicate HasHd(buf: Buffer) {
    Shr(buf[1], 31) == 1
  }

  function WordCount(buf: Buffer): nat {
    Low(buf[1], 10)
  }

  predicate HasPid(hd: u32) {
    Low(hd, 1) == 1
  }

  function CopyCount(hd: u32): nat {
    Field(hd, 1, 4)
  }

  function MoveCount(hd: u32): nat {
    Shr(hd, 5)
  }

  /** Word of the first copied handle, after a descriptor and an optional process id. */
  function CopyWord(hd: u32): nat {
    if HasPid(hd) then 5 else 3
  }

  function MoveWord(hd: u32): nat {
    CopyWord(hd) + CopyCount(hd)
  }

  function DescWord(buf: Buffer): nat {
    if HasHd(buf) then MoveWord(buf[2]) + MoveCount(buf[2]) else 2
  }

  /** Words of the descriptors between the handles and the payload: two, three and three each. */
  function DescriptorWords(header: u32): nat {
    2 * Field(header, 16, 4) + 3 * Field(header, 20, 4) + 3 * Field(header, 24, 4)
  }

  function RawWord(buf: Buffer): nat {
    DescWord(buf) + DescriptorWords(buf[0])
  }

  /** The command id's word lies inside the buffer. */
  predicate Parsable(buf: Buffer) {
    Align4(RawWord(buf)) + 2 < BUFFER_WORDS
  }

  /** A field as quotient and remainder. */
  lemma FieldIs(w: u32, from: nat, len: nat)
    ensures Field(w, from, len) == w / Pow2(from) % Pow2(len)
  {
    ShrAndLow(w, from);
    ShrAndLow(Shr(w, from), len);
  }

  lemma PlaceValues()
    ensures Pow2(1) == 2 && Pow2(2) == 4 && Pow2(4) == 0x10 && Pow2(5) == 0x20 && Pow2(10) == 0x400 && Pow2(16) == 0x1_0000
    ensures Pow2(20) == 0x10_0000 && Pow2(24) == 0x100_0000 && Pow2(31) == 0x8000_0000
  {
    Pow2Constants();
    assert Pow2(2) == 2 * Pow2(1) == 4 * Pow2(0);
    assert Pow2(5) == 2 * Pow2(4) == 4 * Pow2(3) == 8 * Pow2(2);
    Pow2Eight(2);
    Pow2Eight(12);
    Pow2Eight(4);
    Pow2Eight(16);
    assert Pow2(32) == 2 * Pow2(31);
  }

  /** The first word: the type and the numbers of X, A and B descriptors. */
  lemma FirstWord(w: u32)
    ensures Low(w, 16) == w % 0x1_0000 && Field(w, 16, 4) == w / 0x1_0000 % 0x10
    ensures Field(w, 20, 4) == w / 0x10_0000 % 0x10 && Field(w, 24, 4) == w / 0x100_0000 % 0x10
  {
    PlaceValues();
    ShrAndLow(w, 16);
    FieldIs(w, 16, 4);
    FieldIs(w, 20, 4);
    FieldIs(w, 24, 4);
  }

  /** The second word: the word count, the flags of a C descriptor and whether there are handles. */
  lemma SecondWord(buf: Buffer)
    ensures WordCount(buf) == buf[1] % 0x400 && Field(buf[1], 10, 2) == buf[1] / 0x400 % 4
    ensures HasHd(buf) <==> buf[1] >= 0x8000_0000
  {
    PlaceValues();
    ShrAndLow(buf[1], 10);
    FieldIs(buf[1], 10, 2);
    ShrAndLow(buf[1], 31);
  }

  /** The handle descriptor: whether there is a process id, and the numbers of handles. */
  lemma DescriptorWord(hd: u32)
    ensures HasPid(hd) <==> hd % 2 == 1
    ensures CopyCount(hd) == hd / 2 % 0x10 && MoveCount(hd) == hd / 0x20
  {
    PlaceValues();
    ShrAndLow(hd, 1);
    ShrAndLow(hd, 5);
    FieldIs(hd, 1, 4);
  }

  /** Where the handles are: after the descriptor, and after the two words of a process id if there is one. */
  lemma HandlePositions(hd: u32)
    ensures CopyWord(hd) == 3 + 2 * (hd % 2) && MoveWord(hd) == 3 + 2 * (hd % 2) + hd / 2 % 0x10
  {
    DescriptorWord(hd);
  }

  /** Where the buffer descriptors and what follows them begin. */
  lemma Positions(buf: Buffer, x: nat, a: nat, b: nat)
    requires x == buf[0] / 0x1_0000 % 0x10 && a == buf[0] / 0x10_0000 % 0x10 && b == buf[0] / 0x100_0000 % 0x10
    ensures DescWord(buf) == if buf[1] < 0x8000_0000 then 2 else 3 + 2 * (buf[2] % 2) + buf[2] / 2 % 0x10 + buf[2] / 0x20
    ensures RawWord(buf) == DescWord(buf) + 2 * x + 3 * a + 3 * b
  {
    FirstWord(buf[0]);
    SecondWord(buf);
    DescriptorWord(buf[2]);
    HandlePositions(buf[2]);
  }

  /** The magic is the word that reads SFCO. */
  lemma MagicReads()
    ensures SFCO == 'S' as int + 0x100 * 'F' as int + 0x1_0000 * 'C' as int + 0x100_0000 * 'O' as int
  {
  }

  // ---------------------------------------------------------------- filling a built message

  /** A handle, a data word after the result code, or the result code itself. */
  datatype Write = Move(i: nat, value: u32) | Copy(i: nat, value: u32) | Data(i: nat, value: u32) | Error(value: u32)

  /** The word that a write goes to. */
  function Slot(w: Write, move: nat, copy: nat): nat {
    match w
    case Move(i, _) => 3 + copy + i
    case Copy(i, _) => 3 + i
    case Data(i, _) => PayloadWord(move, copy) + 3 + i
    case Error(_) => PayloadWord(move, copy) + 2
  }

  /** The handle exists, or the word lies inside the buffer. */
  predicate Allowed(w: Write, move: nat, copy: nat) {
    match w
    case Move(i, _) => i < move
    case Copy(i, _) => i < copy
    case Data(i, _) => Slot(w, move, copy) < BUFFER_WORDS
    case Error(_) => true
  }

  predicate SamePlace(v: Write, w: Write) {
    (v.Move? && w.Move? && v.i == w.i) || (v.Copy? && w.Copy? && v.i == w.i)
    || (v.Data? && w.Data? && v.i == w.i) || (v.Error? && w.Error?)
  }

  /** No write reaches another section, the header, the descriptor or the magic. */
  lemma SectionsDisjoint(v: Write, w: Write, move: nat, copy: nat)
    requires Allowed(v, move, copy) && Allowed(w, move, copy) && PayloadWord(move, copy) + 2 < BUFFER_WORDS
    ensures Slot(v, move, copy) == Slot(w, move, copy) <==> SamePlace(v, w)
    ensures 3 <= Slot(v, move, copy) < BUFFER_WORDS && Slot(v, move, copy) != PayloadWord(move, copy)
  {
  }

  /** The buffer after writes, the last one of the list last. */
  function Written(buf: Buffer, writes: seq<Write>, move: nat, copy: nat): (after: Buffer)
    requires PayloadWord(move, copy) + 2 < BUFFER_WORDS
    requires forall w :: w in writes ==> Allowed(w, move, copy)
  {
    if writes == [] then buf
    else
      var w := writes[|writes| - 1];
      SectionsDisjoint(w, w, move, copy);
      Written(buf, writes[..|writes| - 1], move, copy)[Slot(w, move, copy) := w.value]
  }

  /** What the last write to a place wrote. */
  function Last(writes: seq<Write>, place: Write, otherwise: u32): u32 {
    if writes == [] then otherwise
    else if SamePlace(writes[|writes| - 1], place) then writes[|writes| - 1].value
    else Last(writes[..|writes| - 1], place, otherwise)
  }

  lemma {:induction false} WrittenHolds(buf: Buffer, writes: seq<Write>, move: nat, copy: nat, place: Write)
    requires PayloadWord(move, copy) + 2 < BUFFER_WORDS && Allowed(place, move, copy)
    requires forall w :: w in writes ==> Allowed(w, move, copy)
    ensures var s := Slot(place, move, copy);
            s < BUFFER_WORDS && Written(buf, writes, move, copy)[s] == Last(writes, place, buf[s])
    decreases |writes|
  {
    SectionsDisjoint(place, place, move, copy);
    if writes != [] {
      WrittenHolds(buf, writes[..|writes| - 1], move, copy, place);
      SectionsDisjoint(writes[|writes| - 1], place, move, copy);
    }
  }

  lemma {:induction false} HeaderKept(buf: Buffer, writes: seq<Write>, move: nat, copy: nat)
    requires PayloadWord(move, copy) + 2 < BUFFER_WORDS
    requires forall w :: w in writes ==> Allowed(w, move, copy)
    ensures var after, p := Written(buf, writes, move, copy), PayloadWord(move, copy);
            after[..3] == buf[..3] && after[p] == buf[p]
    decreases |writes|
  {
    if writes != [] {
      HeaderKept(buf, writes[..|writes| - 1], move, copy);
      var w := writes[|writes| - 1];
      SectionsDisjoint(w, w, move, copy);
    }
  }

  // ---------------------------------------------------------------- round trip

  /** Quotient and remainder by a power of two are unique. */
  lemma {:induction false} SplitUnique(x: nat, high: nat, low: nat, n: nat)
    requires x == Scale(high, n) + low && low < Pow2(n)
    ensures Shr(x, n) == high && Low(x, n) == low
    decreases n
  {
    if n > 0 {
      SplitUnique(x / 2, high, low / 2, n - 1);
    }
  }

  lemma {:induction false} ScaleTwice(x: nat, a: nat, b: nat)
    ensures Scale(Scale(x, a), b) == Scale(x, a + b)
    decreases b
  {
    if b > 0 {
      ScaleTwice(x, a, b - 1);
    }
  }

  lemma {:induction false} OrCommutes(a: nat, b: nat)
    ensures Or(a, b) == Or(b, a)
  {
    if a != 0 && b != 0 {
      OrCommutes(a / 2, b / 2);
    }
  }

  lemma SmallPowers()
    ensures Pow2(1) == 2 && Pow2(4) == 16 && Pow2(5) == 32 && Pow2(10) == 0x400 && Pow2(31) == HD_BIT
  {
    Pow2Constants();
    assert Pow2(1) == 2 * Pow2(0) && Pow2(3) == 2 * Pow2(2) == 4 * Pow2(1);
    assert Pow2(5) == 2 * Pow2(4) == 4 * Pow2(3);
    assert Pow2(10) == 2 * Pow2(9) == 4 * Pow2(8);
    assert Pow2(32) == 2 * Pow2(31);
  }

  lemma ScaleFive(x: nat)
    ensures Scale(x, 5) == 32 * x && Scale(x, 1) == 2 * x
  {
    assert Scale(x, 3) == 2 * Scale(x, 2) == 4 * Scale(x, 1) == 8 * Scale(x, 0);
    assert Scale(x, 5) == 2 * Scale(x, 4) == 4 * Scale(x, 3);
  }

  lemma SmallWord(x: nat)
    requires x < 0x1_0000_0000
    ensures Wrap32(x) == x
  {
  }

  lemma ShiftedCounts(move: nat, copy: nat)
    requires move < BUFFER_WORDS && copy < BUFFER_WORDS
    ensures Descriptor(move, copy) == Or(2 * copy, 32 * move) && Scale(move, 5) == 32 * move
  {
    ScaleFive(copy);
    ScaleFive(move);
    SmallWord(2 * copy);
    SmallWord(32 * move);
  }

  /** What is read back of a descriptor: the copied count modulo sixteen, the rest of it mixed into the moved count. */
  lemma DescriptorFields(move: nat, copy: nat)
    requires copy < BUFFER_WORDS && move < BUFFER_WORDS
    ensures var hd := Descriptor(move, copy);
            !HasPid(hd) && CopyCount(hd) == copy % 16 && MoveCount(hd) == Or(move, copy / 16)
  {
    DescriptorOf(move, copy / 16, copy % 16);
  }

  lemma DescriptorOf(move: nat, high: nat, low: nat)
    requires 16 * high + low < BUFFER_WORDS && move < BUFFER_WORDS && low < 16
    ensures var hd := Descriptor(move, 16 * high + low);
            !HasPid(hd) && CopyCount(hd) == low && MoveCount(hd) == Or(move, high)
  {
    DescriptorIs(move, high, low);
    FieldsOfSplit(Descriptor(move, 16 * high + low), Or(move, high), low);
  }

  lemma DescriptorIs(move: nat, high: nat, low: nat)
    requires 16 * high + low < BUFFER_WORDS && move < BUFFER_WORDS && low < 16
    ensures Descriptor(move, 16 * high + low) == 32 * Or(move, high) + 2 * low
  {
    ShiftedCounts(move, 16 * high + low);
    OrHighLow(move, high, low);
  }

  lemma OrHighLow(move: nat, high: nat, low: nat)
    requires low < 16
    ensures Or(2 * (16 * high + low), 32 * move) == 32 * Or(move, high) + 2 * low
  {
    SmallPowers();
    OrSplit(high, 2 * low, move, 0, 5);
    OrNothing(2 * low);
    OrCommutes(high, move);
    ScaleFive(high);
    ScaleFive(move);
    ScaleFive(Or(move, high));
  }

  lemma OrNothing(x: nat)
    ensures Or(x, 0) == x
  {
  }

  lemma FieldsOfSplit(hd: u32, high: nat, low: nat)
    requires hd == 32 * high + 2 * low && low < 16
    ensures !HasPid(hd) && CopyCount(hd) == low && MoveCount(hd) == high
  {
    SmallPowers();
    ScaleFive(high);
    ScaleFive(16 * high + low);
    SplitUnique(hd, high, 2 * low, 5);
    SplitUnique(hd, 16 * high + low, 0, 1);
    LowAdd(hd, 1, 4);
    ScaleFive(CopyCount(hd));
  }

  lemma {:induction false} OrAtMostSum(a: nat, b: nat)
    ensures Or(a, b) <= a + b
  {
    if a != 0 && b != 0 {
      OrAtMostSum(a / 2, b / 2);
    }
  }

  /** The second header word. */
  lemma CountWord(handles: bool, words: nat)
    requires words < 0x400
    ensures var w := Or32(if handles then HD_BIT else 0, words);
            Low(w, 10) == words && (Shr(w, 31) == 1 <==> handles)
  {
    SmallPowers();
    ScaleIsTimes(1, 31);
    ScaleTwice(1, 21, 10);
    ScaleOfZero(31);
    ScaleOfZero(10);
    if handles {
      OrDisjoint(1, words, 31);
      SplitUnique(HD_BIT + words, 1, words, 31);
      SplitUnique(HD_BIT + words, Scale(1, 21), words, 10);
    } else {
      SplitUnique(words, 0, words, 31);
      SplitUnique(words, 0, words, 10);
    }
  }

  /** A zero first word announces no descriptors. */
  lemma NoDescriptors()
    ensures DescriptorWords(0) == 0
  {
    ZeroField(16);
    ZeroField(20);
    ZeroField(24);
  }

  lemma ZeroField(from: nat)
    ensures Field(0, from, 4) == 0
  {
    SmallPowers();
    ScaleOfZero(from);
    ScaleOfZero(4);
    Split(0, from);
    ScaleIsTimes(Shr(0, from), from);
    ShrShrinks(0, from);
    SplitUnique(0, 0, 0, 4);
  }

  /** A built message fits when its payload begins inside the buffer and the word count in ten bits. */
  predicate Buildable(move: nat, copy: nat, bytes: nat) {
    PayloadWord(move, copy) + 2 < BUFFER_WORDS && 8 + DataWords(bytes) < 0x400
  }

  /** The header words and the magic. */
  ghost predicate Headed(buf: Buffer, move: nat, copy: nat, words: nat) {
    && buf[0] == 0 && buf[1] == Or32(if HasHandles(move, copy) then HD_BIT else 0, Wrap32(words))
    && (HasHandles(move, copy) ==> buf[2] == Descriptor(move, copy))
    && PayloadWord(move, copy) < BUFFER_WORDS && buf[PayloadWord(move, copy)] == SFCO
  }

  lemma BuiltIsHeaded(buf: Buffer, move: nat, copy: nat, bytes: nat)
    requires PayloadWord(move, copy) < BUFFER_WORDS && (HasHandles(move, copy) || buf[1] == 0)
    ensures Headed(Built(buf, move, copy, bytes), move, copy, 8 + DataWords(bytes))
  {
    assert PayloadWord(move, copy) >= 4 || !HasHandles(move, copy);
  }

  lemma WrittenIsHeaded(buf: Buffer, writes: seq<Write>, move: nat, copy: nat, words: nat)
    requires PayloadWord(move, copy) + 2 < BUFFER_WORDS && Headed(buf, move, copy, words)
    requires forall w :: w in writes ==> Allowed(w, move, copy)
    ensures Headed(Written(buf, writes, move, copy), move, copy, words)
  {
    HeaderKept(buf, writes, move, copy);
    var after := Written(buf, writes, move, copy);
    assert after[..3][0] == buf[..3][0] && after[..3][1] == buf[..3][1] && after[..3][2] == buf[..3][2];
  }

  /** What the parser makes of the header of a built message. */
  lemma HeaderParsed(buf: Buffer, move: nat, copy: nat, words: nat)
    requires Headed(buf, move, copy, words) && words < 0x400 && copy < BUFFER_WORDS && move < BUFFER_WORDS
    ensures HasHd(buf) == HasHandles(move, copy) && WordCount(buf) == words
    ensures RawWord(buf) <= 2 + HandleWords(move, copy)
    ensures copy < 16 ==> RawWord(buf) == 2 + HandleWords(move, copy)
    ensures HasHandles(move, copy) && copy < 16 ==> CopyWord(buf[2]) == 3 && MoveWord(buf[2]) == 3 + copy
  {
    CountsParsed(buf[1], HasHandles(move, copy), words);
    NoDescriptors();
    if HasHandles(move, copy) {
      HandlesParsed(buf[2], move, copy);
      RawWordIs(buf, MoveWord(buf[2]) + MoveCount(buf[2]));
    } else {
      RawWordIs(buf, 2);
    }
  }

  lemma RawWordIs(buf: Buffer, n: nat)
    requires DescriptorWords(buf[0]) == 0 && DescWord(buf) == n
    ensures RawWord(buf) == n
  {
  }

  lemma CountsParsed(w: u32, handles: bool, words: nat)
    requires words < 0x400 && w == Or32(if handles then HD_BIT else 0, Wrap32(words))
    ensures Low(w, 10) == words && (Shr(w, 31) == 1 <==> handles)
  {
    SmallWord(words);
    CountWord(handles, words);
  }

  lemma HandlesParsed(hd: u32, move: nat, copy: nat)
    requires hd == Descriptor(move, copy) && copy < BUFFER_WORDS && move < BUFFER_WORDS
    ensures copy < 16 ==> CopyWord(hd) == 3 && MoveWord(hd) == 3 + copy
    ensures MoveWord(hd) + MoveCount(hd) <= 3 + move + copy
    ensures copy < 16 ==> MoveWord(hd) + MoveCount(hd) == 3 + move + copy
  {
    DescriptorFields(move, copy);
    OrAtMostSum(move, copy / 16);
    assert copy < 16 ==> Or(move, copy / 16) == move;
  }

  /** A message that was built and filled, in a buffer whose second word is zero unless there are handles. */
  function Message(buf: Buffer, writes: seq<Write>, move: nat, copy: nat, bytes: nat): Buffer
    requires Buildable(move, copy, bytes)
    requires forall w :: w in writes ==> Allowed(w, move, copy)
  {
    Written(Built(buf, move, copy, bytes), writes, move, copy)
  }

  lemma MessageIsHeaded(buf: Buffer, writes: seq<Write>, move: nat, copy: nat, bytes: nat)
    requires Buildable(move, copy, bytes) && (HasHandles(move, copy) || buf[1] == 0)
    requires forall w :: w in writes ==> Allowed(w, move, copy)
    ensures Headed(Message(buf, writes, move, copy, bytes), move, copy, 8 + DataWords(bytes))
  {
    BuiltIsHeaded(buf, move, copy, bytes);
    WrittenIsHeaded(Built(buf, move, copy, bytes), writes, move, copy, 8 + DataWords(bytes));
  }

  lemma HandlesFit(move: nat, copy: nat)
    requires PayloadWord(move, copy) + 2 < BUFFER_WORDS
    ensures move < BUFFER_WORDS && copy < BUFFER_WORDS
  {
  }

  /** The parser finds the builder's payload, word count, magic and handle positions. */
  ghost predicate SameLayout(message: Buffer, move: nat, copy: nat, words: nat) {
    && HasHd(message) == HasHandles(move, copy)
    && Align4(RawWord(message)) == PayloadWord(move, copy) && Parsable(message)
    && WordCount(message) == words
    && message[PayloadWord(move, copy)] == SFCO
    && (HasHandles(move, copy) ==> CopyWord(message[2]) == 3 && MoveWord(message[2]) == 3 + copy)
  }

  /** The payload follows the handles. */
  lemma PayloadFollows(raw: nat, move: nat, copy: nat)
    requires raw <= 2 + HandleWords(move, copy) && PayloadWord(move, copy) + 2 < BUFFER_WORDS
    ensures Align4(raw) + 2 < BUFFER_WORDS
    ensures raw == 2 + HandleWords(move, copy) ==> Align4(raw) == PayloadWord(move, copy)
  {
  }

  lemma HeadedIsParsed(message: Buffer, move: nat, copy: nat, words: nat)
    requires Headed(message, move, copy, words) && words < 0x400 && copy < 16 && move < BUFFER_WORDS
    requires PayloadWord(move, copy) + 2 < BUFFER_WORDS
    ensures SameLayout(message, move, copy, words)
  {
    HeaderParsed(message, move, copy, words);
    var raw := RawWord(message);
    PayloadFollows(raw, move, copy);
    assert Align4(raw) == PayloadWord(move, copy);
  }

  lemma LayoutRecovered(buf: Buffer, writes: seq<Write>, move: nat, copy: nat, bytes: nat)
    requires Buildable(move, copy, bytes) && (HasHandles(move, copy) || buf[1] == 0) && copy < 16
    requires forall w :: w in writes ==> Allowed(w, move, copy)
    ensures SameLayout(Message(buf, writes, move, copy, bytes), move, copy, 8 + DataWords(bytes))
  {
    HandlesFit(move, copy);
    MessageIsHeaded(buf, writes, move, copy, bytes);
    HeadedIsParsed(Message(buf, writes, move, copy, bytes), move, copy, 8 + DataWords(bytes));
  }

  /** What the parser makes of a message with any number of handles. */
  ghost predicate CountsReadAs(message: Buffer, move: nat, copy: nat) {
    && Parsable(message) && HasHd(message) == HasHandles(move, copy)
    && (HasHandles(move, copy) ==> CopyCount(message[2]) == copy % 16 && MoveCount(message[2]) == Or(move, copy / 16))
  }

  lemma HeadedCounts(message: Buffer, move: nat, copy: nat, words: nat)
    requires Headed(message, move, copy, words) && words < 0x400 && move < BUFFER_WORDS && copy < BUFFER_WORDS
    requires PayloadWord(move, copy) + 2 < BUFFER_WORDS
    ensures CountsReadAs(message, move, copy)
  {
    HeaderParsed(message, move, copy, words);
    PayloadFollows(RawWord(message), move, copy);
    DescriptorFields(move, copy);
  }

  /** However many handles there are, the message can be parsed, and its counts are these. */
  lemma CountsParsedBack(buf: Buffer, writes: seq<Write>, move: nat, copy: nat, bytes: nat)
    requires Buildable(move, copy, bytes) && (HasHandles(move, copy) || buf[1] == 0)
    requires forall w :: w in writes ==> Allowed(w, move, copy)
    ensures CountsReadAs(Message(buf, writes, move, copy, bytes), move, copy)
  {
    HandlesFit(move, copy);
    MessageIsHeaded(buf, writes, move, copy, bytes);
    HeadedCounts(Message(buf, writes, move, copy, bytes), move, copy, 8 + DataWords(bytes));
  }

  /** Both counts are read back exactly when fewer than sixteen handles are copied: the descriptor has four bits for them. */
  lemma CountsRecovered(move: nat, copy: nat)
    requires copy < BUFFER_WORDS && move < BUFFER_WORDS
    ensures var hd := Descriptor(move, copy); CopyCount(hd) == copy && MoveCount(hd) == move <==> copy < 16
  {
    DescriptorFields(move, copy);
  }

  /** The result code is the command word that the parser reads. */
  lemma ResultRecovered(buf: Buffer, writes: seq<Write>, move: nat, copy: nat, bytes: nat)
    requires Buildable(move, copy, bytes) && (HasHandles(move, copy) || buf[1] == 0) && copy < 16
    requires forall w :: w in writes ==> Allowed(w, move, copy)
    ensures var message := Message(buf, writes, move, copy, bytes);
            && Parsable(message)
            && message[Align4(RawWord(message)) + 2]
               == Last(writes, Error(0), Built(buf, move, copy, bytes)[PayloadWord(move, copy) + 2])
  {
    LayoutRecovered(buf, writes, move, copy, bytes);
    WrittenHolds(Built(buf, move, copy, bytes), writes, move, copy, Error(0));
  }

  /** A copied handle is read back as it was last written. */
  lemma CopyRecovered(buf: Buffer, writes: seq<Write>, move: nat, copy: nat, bytes: nat, i: nat)
    requires Buildable(move, copy, bytes) && (HasHandles(move, copy) || buf[1] == 0) && i < copy < 16
    requires forall w :: w in writes ==> Allowed(w, move, copy)
    ensures var message := Message(buf, writes, move, copy, bytes);
            HasHd(message) && CopyWord(message[2]) + i < BUFFER_WORDS
            && message[CopyWord(message[2]) + i] == Last(writes, Copy(i, 0), Built(buf, move, copy, bytes)[3 + i])
  {
    LayoutRecovered(buf, writes, move, copy, bytes);
    WrittenHolds(Built(buf, move, copy, bytes), writes, move, copy, Copy(i, 0));
  }

  /** So is a moved handle. */
  lemma MoveRecovered(buf: Buffer, writes: seq<Write>, move: nat, copy: nat, bytes: nat, i: nat)
    requires Buildable(move, copy, bytes) && (HasHandles(move, copy) || buf[1] == 0) && copy < 16 && i < move
    requires forall w :: w in writes ==> Allowed(w, move, copy)
    ensures 3 + copy + i < BUFFER_WORDS
    ensures var message := Message(buf, writes, move, copy, bytes);
            HasHd(message) && MoveWord(message[2]) + i < BUFFER_WORDS
            && message[MoveWord(message[2]) + i] == Last(writes, Move(i, 0), Built(buf, move, copy, bytes)[3 + copy + i])
  {
    LayoutRecovered(buf, writes, move, copy, bytes);
    MoveHeld(buf, writes, move, copy, bytes, i);
  }

  lemma MoveHeld(buf: Buffer, writes: seq<Write>, move: nat, copy: nat, bytes: nat, i: nat)
    requires Buildable(move, copy, bytes) && i < move && forall w :: w in writes ==> Allowed(w, move, copy)
    ensures 3 + copy + i < BUFFER_WORDS
    ensures Message(buf, writes, move, copy, bytes)[3 + copy + i]
         == Last(writes, Move(i, 0), Built(buf, move, copy, bytes)[3 + copy + i])
  {
    WrittenHolds(Built(buf, move, copy, bytes), writes, move, copy, Move(i, 0));
  }

  // ---------------------------------------------------------------- the message object

  class IpcMessage {
    const raw: array?<u32>
    var msgType: nat
    var xCnt: nat
    var aCnt: nat
    var bCnt: nat
    var wCnt: nat
    var hasC: bool
    var hasPid: bool
    var pid: u32
    var moveCnt: nat
    var copyCnt: nat
    var cmdId: u32
    var errorCode: u32
    var copyOff: nat
    var moveOff: nat
    var descOff: nat
    var rawOff: nat
    var payloadOff: nat

    ghost predicate Valid() {
      raw != null ==> raw.Length == BUFFER_WORDS
    }

    ghost function Words(): Buffer
      requires raw != null && Valid()
      reads raw
    {
      raw[..]
    }

    constructor (raw: array?<u32>)
      requires raw != null ==> raw.Length == BUFFER_WORDS
      ensures Valid() && this.raw == raw
    {
      this.raw := raw;
    }

    /** `GetData` of a word-sized value at a multiple of four. */
    method GetData(offset: nat) returns (value: u32)
      requires raw != null && Valid() && offset % 4 == 0 && payloadOff % 4 == 0 && (payloadOff + 8 + offset) / 4 < BUFFER_WORDS
      ensures value == Words()[payloadOff / 4 + 2 + offset / 4]
    {
      value := raw[(payloadOff + 8 + offset) / 4];
    }

    /** A handle count, and the offsets that go with it, are set only when the message has handles. */
    method ParseMessage()
      requires raw != null && Valid() && Parsable(Words())
      modifies this
      ensures var buf := Words();
              && msgType == Low(buf[0], 16) && wCnt == WordCount(buf) && hasC == (Field(buf[1], 10, 2) != 0)
              && xCnt == Field(buf[0], 16, 4) && aCnt == Field(buf[0], 20, 4) && bCnt == Field(buf[0], 24, 4)
              && descOff == 4 * DescWord(buf) && rawOff == 4 * RawWord(buf) && payloadOff == 4 * Align4(RawWord(buf))
              && cmdId == buf[Align4(RawWord(buf)) + 2]
      ensures HasHd(Words()) ==> HandlesParsed(Words())
      ensures !HasHd(Words()) ==>
                moveCnt == old(moveCnt) && copyCnt == old(copyCnt) && copyOff == old(copyOff) && moveOff == old(moveOff)
                && hasPid == old(hasPid) && pid == old(pid)
    {
      ghost var buf := Words();
      assert raw[0] == buf[0] && raw[1] == buf[1];
      ParseCounts();
      var pos: nat := 2;
      if Shr(raw[1], 31) == 1 {
        pos := ParseHandles();
      }
      assert pos == DescWord(buf);
      LocatePayload(pos, RawWord(buf));
    }

    /** Skips the descriptors, aligns and reads the command id. */
    method LocatePayload(start: nat, ghost end: nat)
      requires raw != null && Valid() && end == start + 2 * xCnt + 3 * aCnt + 3 * bCnt && Align4(end) + 2 < BUFFER_WORDS
      modifies this`descOff, this`rawOff, this`payloadOff, this`cmdId
      ensures descOff == 4 * start && rawOff == 4 * end && payloadOff == 4 * Align4(end)
      ensures cmdId == raw[Align4(end) + 2]
    {
      var pos := start;
      descOff := pos * 4;
      pos := pos + xCnt * 2;
      pos := pos + aCnt * 3;
      pos := pos + bCnt * 3;
      rawOff := pos * 4;
      pos := Align4(pos);
      payloadOff := pos * 4;
      cmdId := GetData(0);
    }

    ghost predicate HandlesParsed(buf: Buffer)
      reads this
    {
      && moveCnt == MoveCount(buf[2]) && copyCnt == CopyCount(buf[2])
      && copyOff == 4 * CopyWord(buf[2]) && moveOff == 4 * MoveWord(buf[2])
      && hasPid == HasPid(buf[2]) && (hasPid ==> pid == buf[3])
    }

    /** The fields of the two header words. */
    method ParseCounts()
      requires raw != null && Valid()
      modifies this`msgType, this`xCnt, this`aCnt, this`bCnt, this`wCnt, this`hasC
      ensures var buf := Words();
              && msgType == Low(buf[0], 16) && wCnt == WordCount(buf) && hasC == (Field(buf[1], 10, 2) != 0)
              && xCnt == Field(buf[0], 16, 4) && aCnt == Field(buf[0], 20, 4) && bCnt == Field(buf[0], 24, 4)
    {
      msgType := Low(raw[0], 16);
      xCnt := Field(raw[0], 16, 4);
      aCnt := Field(raw[0], 20, 4);
      bCnt := Field(raw[0], 24, 4);
      wCnt := Low(raw[1], 10);
      hasC := Field(raw[1], 10, 2) != 0;
    }

    /** The handle descriptor; returns the position after the handles. */
    method ParseHandles() returns (pos: nat)
      requires raw != null && Valid()
      modifies this`hasPid, this`pid, this`copyCnt, this`moveCnt, this`copyOff, this`moveOff
      ensures HandlesParsed(Words())
      ensures pos == MoveWord(Words()[2]) + MoveCount(Words()[2])
    {
      var hd := raw[2];
      pos := 3;
      hasPid := Low(hd, 1) == 1;
      copyCnt := Field(hd, 1, 4);
      moveCnt := Shr(hd, 5);
      if hasPid {
        pid := raw[pos];
        pos := pos + 2;
      }
      copyOff := pos * 4;
      pos := pos + copyCnt;
      moveOff := pos * 4;
      pos := pos + moveCnt;
    }

    method GenBuf(move: u32, copy: u32, dataBytes: u32)
      requires raw != null && Valid() && PayloadWord(move, copy) < BUFFER_WORDS
      modifies this, raw
      ensures Words() == Built(old(Words()), move, copy, dataBytes)
      ensures moveCnt == move && copyCnt == copy && payloadOff == 4 * PayloadWord(move, copy) && errorCode == old(errorCode)
    {
      moveCnt, copyCnt := move, copy;
      raw[0] := 0;
      if move != 0 || copy != 0 {
        raw[1] := HD_BIT;
        raw[2] := Descriptor(move, copy);
      }
      var pos: nat := 2 + if move != 0 || copy != 0 then 1 + move + copy else 0;
      pos := Align4(pos);
      raw[1] := Or32(raw[1], Wrap32(8 + DataWords(dataBytes)));
      payloadOff := pos * 4;
      raw[pos] := SFCO;
    }

    method SetMove(offset: nat, handler: u32)
      requires Valid() && 3 + copyCnt + offset < BUFFER_WORDS
      modifies raw
      ensures raw != null ==> Words() == old(Words())[3 + copyCnt + offset := handler]
    {
      if raw == null {
        return;
      }
      raw[3 + copyCnt + offset] := handler;
    }

    method SetCopy(offset: nat, handler: u32)
      requires Valid() && 3 + offset < BUFFER_WORDS
      modifies raw
      ensures raw != null ==> Words() == old(Words())[3 + offset := handler]
    {
      if raw == null {
        return;
      }
      raw[3 + offset] := handler;
    }

    method SetErrorCode()
      requires Valid() && payloadOff / 4 + 2 < BUFFER_WORDS
      modifies raw
      ensures raw != null ==> Words() == old(Words())[payloadOff / 4 + 2 := errorCode]
    {
      if raw != null {
        raw[payloadOff / 4 + 2] := errorCode;
      }
    }

    method GetMoved(off: nat) returns (handle: u32)
      requires raw != null && Valid() && moveOff % 4 == 0 && moveOff / 4 + off < BUFFER_WORDS
      ensures handle == Words()[moveOff / 4 + off]
    {
      handle := raw[(moveOff + off * 4) / 4];
    }

    method GetCopied(off: nat) returns (handle: u32)
      requires raw != null && Valid() && copyOff % 4 == 0 && copyOff / 4 + off < BUFFER_WORDS
      ensures handle == Words()[copyOff / 4 + off]
    {
      handle := raw[(copyOff + off * 4) / 4];
    }
  }

  // ---------------------------------------------------------------- two messages on one buffer

  /** The writes that fill a message with its handles and result code. */
  function AllWrites(moved: seq<u32>, copied: seq<u32>, code: u32): (writes: seq<Write>)
    ensures |writes| == |moved| + |copied| + 1
  {
    MoveWrites(moved, |moved|) + CopyWrites(copied, |copied|) + [Error(code)]
  }

  function MoveWrites(moved: seq<u32>, n: nat): (writes: seq<Write>)
    requires n <= |moved|
    ensures |writes| == n && forall i :: 0 <= i < n ==> writes[i] == Move(i, moved[i])
  {
    seq(n, i requires 0 <= i < n => Move(i, moved[i]))
  }

  function CopyWrites(copied: seq<u32>, n: nat): (writes: seq<Write>)
    requires n <= |copied|
    ensures |writes| == n && forall i :: 0 <= i < n ==> writes[i] == Copy(i, copied[i])
  {
    seq(n, i requires 0 <= i < n => Copy(i, copied[i]))
  }

  predicate AllAllowed(writes: seq<Write>, move: nat, copy: nat) {
    forall w :: w in writes ==> Allowed(w, move, copy)
  }

  lemma WrittenSnoc(buf: Buffer, writes: seq<Write>, w: Write, move: nat, copy: nat)
    requires PayloadWord(move, copy) + 2 < BUFFER_WORDS && AllAllowed(writes, move, copy) && Allowed(w, move, copy)
    ensures Slot(w, move, copy) < BUFFER_WORDS && AllAllowed(writes + [w], move, copy)
    ensures Written(buf, writes + [w], move, copy) == Written(buf, writes, move, copy)[Slot(w, move, copy) := w.value]
  {
    SectionsDisjoint(w, w, move, copy);
    assert (writes + [w])[..|writes|] == writes;
  }

  /** A write that no later one repeats is what its place holds. */
  lemma {:induction false} LastIs(writes: seq<Write>, place: Write, otherwise: u32, k: nat)
    requires k < |writes| && SamePlace(writes[k], place)
    requires forall j :: k < j < |writes| ==> !SamePlace(writes[j], place)
    ensures Last(writes, place, otherwise) == writes[k].value
    decreases |writes|
  {
    if k < |writes| - 1 {
      LastIs(writes[..|writes| - 1], place, otherwise, k);
    }
  }

  /** Builds a message and fills it, as a service's reply is. */
  method BuildReply(m: IpcMessage, moved: seq<u32>, copied: seq<u32>, dataBytes: u32, code: u32)
    requires m.raw != null && m.Valid() && |moved| < BUFFER_WORDS && |copied| < BUFFER_WORDS
    requires Buildable(|moved|, |copied|, dataBytes)
    modifies m, m.raw
    ensures AllAllowed(AllWrites(moved, copied, code), |moved|, |copied|)
    ensures m.Words() == Message(old(m.Words()), AllWrites(moved, copied, code), |moved|, |copied|, dataBytes)
    ensures m.payloadOff == 4 * PayloadWord(|moved|, |copied|)
  {
    ghost var move, copy := |moved|, |copied|;
    m.GenBuf(|moved|, |copied|, dataBytes);
    ghost var built := m.Words();
    FillMoved(m, built, moved, copied);
    FillCopied(m, built, moved, copied);
    m.errorCode := code;
    m.SetErrorCode();
    WrittenSnoc(built, MoveWrites(moved, move) + CopyWrites(copied, copy), Error(code), move, copy);
  }

  method FillMoved(m: IpcMessage, ghost built: Buffer, moved: seq<u32>, ghost copied: seq<u32>)
    requires m.raw != null && m.Valid() && m.copyCnt == |copied|
    requires PayloadWord(|moved|, |copied|) + 2 < BUFFER_WORDS && m.Words() == built
    modifies m.raw
    ensures AllAllowed(MoveWrites(moved, |moved|), |moved|, |copied|)
    ensures m.Words() == Written(built, MoveWrites(moved, |moved|), |moved|, |copied|)
  {
    ghost var move, copy := |moved|, |copied|;
    assert MoveWrites(moved, 0) == [];
    for i := 0 to |moved|
      invariant AllAllowed(MoveWrites(moved, i), move, copy)
      invariant m.Words() == Written(built, MoveWrites(moved, i), move, copy)
    {
      WrittenSnoc(built, MoveWrites(moved, i), Move(i, moved[i]), move, copy);
      assert MoveWrites(moved, i + 1) == MoveWrites(moved, i) + [Move(i, moved[i])];
      m.SetMove(i, moved[i]);
    }
  }

  method FillCopied(m: IpcMessage, ghost built: Buffer, ghost moved: seq<u32>, copied: seq<u32>)
    requires m.raw != null && m.Valid() && PayloadWord(|moved|, |copied|) + 2 < BUFFER_WORDS
    requires AllAllowed(MoveWrites(moved, |moved|), |moved|, |copied|)
    requires m.Words() == Written(built, MoveWrites(moved, |moved|), |moved|, |copied|)
    modifies m.raw
    ensures AllAllowed(MoveWrites(moved, |moved|) + CopyWrites(copied, |copied|), |moved|, |copied|)
    ensures m.Words() == Written(built, MoveWrites(moved, |moved|) + CopyWrites(copied, |copied|), |moved|, |copied|)
  {
    ghost var first, move, copy := MoveWrites(moved, |moved|), |moved|, |copied|;
    assert first + CopyWrites(copied, 0) == first;
    for i := 0 to |copied|
      invariant AllAllowed(first + CopyWrites(copied, i), move, copy)
      invariant m.Words() == Written(built, first + CopyWrites(copied, i), move, copy)
    {
      WrittenSnoc(built, first + CopyWrites(copied, i), Copy(i, copied[i]), move, copy);
      assert first + CopyWrites(copied, i + 1) == first + CopyWrites(copied, i) + [Copy(i, copied[i])];
      m.SetCopy(i, copied[i]);
    }
  }

  /**
   What one message object builds, another one on the same buffer parses. Its counts are right
   exactly when fewer than sixteen handles were copied and, in a message without handles, whose
   counts the parser does not set, they were zero before.
   */
  method BuildThenParse(m: IpcMessage, p: IpcMessage, moved: seq<u32>, copied: seq<u32>, dataBytes: u32, code: u32)
    returns (gotMoved: seq<u32>, gotCopied: seq<u32>)
    requires m.raw != null && m.raw == p.raw && m != p && m.Valid() && |moved| < BUFFER_WORDS && |copied| < BUFFER_WORDS
    requires Buildable(|moved|, |copied|, dataBytes) && (HasHandles(|moved|, |copied|) || m.raw[1] == 0)
    modifies m, p, m.raw
    ensures p.moveCnt == |moved| && p.copyCnt == |copied| <==>
            |copied| < 16 && (HasHandles(|moved|, |copied|) || (old(p.moveCnt) == 0 && old(p.copyCnt) == 0))
    ensures |copied| < 16 ==> p.payloadOff == m.payloadOff && p.wCnt == 8 + DataWords(dataBytes) && p.cmdId == code
    ensures |copied| < 16 ==> gotMoved == moved && gotCopied == copied
  {
    ghost var buf, move, copy, writes := m.Words(), |moved|, |copied|, AllWrites(moved, copied, code);
    BuildReply(m, moved, copied, dataBytes, code);
    CountsParsedBack(buf, writes, move, copy, dataBytes);
    p.ParseMessage();
    gotMoved, gotCopied := [], [];
    if |copied| < 16 {
      LayoutRecovered(buf, writes, move, copy, dataBytes);
      ReplyHolds(buf, moved, copied, dataBytes, code);
      if HasHandles(|moved|, |copied|) {
        gotMoved := ReadMoved(p, |moved|, moved, copied);
        gotCopied := ReadCopied(p, |copied|, moved, copied);
      }
    }
  }

  method ReadMoved(p: IpcMessage, n: nat, ghost moved: seq<u32>, ghost copied: seq<u32>) returns (handles: seq<u32>)
    requires p.raw != null && p.Valid() && p.moveOff == 12 + 4 * |copied| && n == |moved| && HandlesAt(p.Words(), moved, copied)
    ensures handles == moved
  {
    handles := [];
    for i := 0 to n
      invariant handles == moved[..i]
    {
      ghost var sent := moved[i];
      assert 3 + |copied| + i < BUFFER_WORDS && p.Words()[3 + |copied| + i] == sent;
      var handle := p.GetMoved(i);
      handles := handles + [handle];
    }
  }

  method ReadCopied(p: IpcMessage, n: nat, ghost moved: seq<u32>, ghost copied: seq<u32>) returns (handles: seq<u32>)
    requires p.raw != null && p.Valid() && p.copyOff == 12 && n == |copied| && HandlesAt(p.Words(), moved, copied)
    ensures handles == copied
  {
    handles := [];
    for i := 0 to n
      invariant handles == copied[..i]
    {
      ghost var sent := copied[i];
      assert 3 + i < BUFFER_WORDS && p.Words()[3 + i] == sent;
      var handle := p.GetCopied(i);
      handles := handles + [handle];
    }
  }

  /** The handles are where a parser of a message with handles finds them. */
  ghost predicate HandlesAt(message: Buffer, moved: seq<u32>, copied: seq<u32>) {
    && (forall i: nat :: i < |copied| ==> 3 + i < BUFFER_WORDS && message[3 + i] == copied[i])
    && (forall i: nat :: i < |moved| ==> 3 + |copied| + i < BUFFER_WORDS && message[3 + |copied| + i] == moved[i])
  }

  lemma ReplyHolds(buf: Buffer, moved: seq<u32>, copied: seq<u32>, bytes: nat, code: u32)
    requires Buildable(|moved|, |copied|, bytes) && AllAllowed(AllWrites(moved, copied, code), |moved|, |copied|)
    ensures var message := Message(buf, AllWrites(moved, copied, code), |moved|, |copied|, bytes);
            HandlesAt(message, moved, copied) && message[PayloadWord(|moved|, |copied|) + 2] == code
  {
    var built := Built(buf, |moved|, |copied|, bytes);
    forall i: nat | i < |copied| ensures 3 + i < BUFFER_WORDS && Replied(built, moved, copied, code)[3 + i] == copied[i] {
      CopyReplied(built, moved, copied, code, i);
    }
    forall i: nat | i < |moved|
      ensures 3 + |copied| + i < BUFFER_WORDS && Replied(built, moved, copied, code)[3 + |copied| + i] == moved[i]
    {
      MoveReplied(built, moved, copied, code, i);
    }
    CodeReplied(built, moved, copied, code);
  }

  function Replied(built: Buffer, moved: seq<u32>, copied: seq<u32>, code: u32): Buffer
    requires PayloadWord(|moved|, |copied|) + 2 < BUFFER_WORDS && AllAllowed(AllWrites(moved, copied, code), |moved|, |copied|)
  {
    Written(built, AllWrites(moved, copied, code), |moved|, |copied|)
  }

  lemma CopyReplied(built: Buffer, moved: seq<u32>, copied: seq<u32>, code: u32, i: nat)
    requires PayloadWord(|moved|, |copied|) + 2 < BUFFER_WORDS && AllAllowed(AllWrites(moved, copied, code), |moved|, |copied|)
    requires i < |copied|
    ensures 3 + i < BUFFER_WORDS && Replied(built, moved, copied, code)[3 + i] == copied[i]
  {
    var writes := AllWrites(moved, copied, code);
    assert writes[|moved| + i] == Copy(i, copied[i]);
    WrittenAt(built, writes, |moved|, |copied|, |moved| + i);
  }

  lemma MoveReplied(built: Buffer, moved: seq<u32>, copied: seq<u32>, code: u32, i: nat)
    requires PayloadWord(|moved|, |copied|) + 2 < BUFFER_WORDS && AllAllowed(AllWrites(moved, copied, code), |moved|, |copied|)
    requires i < |moved|
    ensures 3 + |copied| + i < BUFFER_WORDS && Replied(built, moved, copied, code)[3 + |copied| + i] == moved[i]
  {
    var writes := AllWrites(moved, copied, code);
    assert writes[i] == Move(i, moved[i]);
    WrittenAt(built, writes, |moved|, |copied|, i);
  }

  lemma CodeReplied(built: Buffer, moved: seq<u32>, copied: seq<u32>, code: u32)
    requires PayloadWord(|moved|, |copied|) + 2 < BUFFER_WORDS && AllAllowed(AllWrites(moved, copied, code), |moved|, |copied|)
    ensures Replied(built, moved, copied, code)[PayloadWord(|moved|, |copied|) + 2] == code
  {
    var writes := AllWrites(moved, copied, code);
    assert writes[|moved| + |copied|] == Error(code);
    WrittenAt(built, writes, |moved|, |copied|, |moved| + |copied|);
  }

  /** A write that no later one repeats is found at its word. */
  lemma WrittenAt(buf: Buffer, writes: seq<Write>, move: nat, copy: nat, k: nat)
    requires PayloadWord(move, copy) + 2 < BUFFER_WORDS && AllAllowed(writes, move, copy) && k < |writes|
    requires forall j :: k < j < |writes| ==> !SamePlace(writes[j], writes[k])
    ensures Slot(writes[k], move, copy) < BUFFER_WORDS
    ensures Written(buf, writes, move, copy)[Slot(writes[k], move, copy)] == writes[k].value
  {
    var w := writes[k];
    assert w in writes;
    WrittenHolds(buf, writes, move, copy, w);
    LastIs(writes, w, buf[Slot(w, move, copy)], k);
  }
}
