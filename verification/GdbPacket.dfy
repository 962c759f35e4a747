/**
 The packet layer of the GDB remote stub: a receiver that takes one byte at a time, and the
 sender. See the GDB Remote Serial Protocol, section E.1 "Overview" of "Debugging with GDB".
 */
module GdbPacket {
  import opened Bits

  const GDB_BUFFER_SIZE: nat := 4096

  const DOLLAR: u8 := 0x24
  const HASH: u8 := 0x23
  const BRACE: u8 := 0x7d
  const STAR: u8 := 0x2a
  const SPACE: u8 := 0x20
  const ACK: u8 := 0x2b
  const NAK: u8 := 0x2d

  datatype RSState = Idle | GetLine | GetLineEsc | GetLineRle | Chksum1 | Chksum2

  /**
   The receiver's state: the stored bytes of the current command, the running sum of the packet's
   bytes, the high checksum digit, the replies sent so far and the commands handed over so far.
   */
  datatype Receiver = Receiver(state: RSState, buf: seq<u8>, sum: nat, checksum: nat,
                               replies: seq<u8>, commands: seq<seq<u8>>)

  predicate IsXdigit(ch: u8) {
    0x61 <= ch <= 0x66 || 0x41 <= ch <= 0x46 || 0x30 <= ch <= 0x39
  }

  function FromHex(ch: u8): (v: nat)
    ensures v < 16
  {
    if 0x30 <= ch <= 0x39 then ch - 0x30
    else if 0x41 <= ch <= 0x46 then ch - 0x41 + 10
    else if 0x61 <= ch <= 0x66 then ch - 0x61 + 10
    else 0
  }

  function ToHex(v: nat): (ch: u8)
    requires v < 16
    ensures IsXdigit(ch) && FromHex(ch) == v
  {
    if v < 10 then v + 0x30 else v - 10 + 0x61
  }

  /** The byte that an escaped byte stands for. */
  function Unescaped(ch: u8): (b: u8) {
    XorBelow(ch, 0x20, 8);
    Xor(ch, 0x20)
  }

  /** Escaping flips bit 5 and no other. */
  lemma BitUnescaped(b: u8, i: nat)
    ensures Bit(Unescaped(b), i) == (Bit(b, i) != (i == 5))
  {
    BitXor(b, 0x20, i);
    BitOf32(i);
  }

  lemma BitOf32(i: nat)
    ensures Bit(0x20, i) == (i == 5)
  {
    assert Pow2(5) == 2 * Pow2(4) == 4 * Pow2(3) == 8 * Pow2(2) == 16 * Pow2(1) == 32;
    if i < 5 {
      BitScale(1, 5, i);
    } else {
      BitScale(1, 5, i);
      if i > 5 { BitAbove(1, 1, i - 5); }
    }
    assert Scale(1, 5) == 0x20;
  }

  /** The byte with bit 5 flipped, as a number. */
  function Flipped(b: u8): u8 {
    if b / 0x20 % 2 == 1 then b - 0x20 else b + 0x20
  }

  lemma FlippedBit(b: u8, i: nat)
    ensures Bit(Flipped(b), i) == (Bit(b, i) != (i == 5))
  {
    var high, low := b / 0x40, b % 0x20;
    var mid := b / 0x20 % 2;
    assert b == 0x40 * high + 0x20 * mid + low;
    FiveBits(high, mid, low, i);
    FiveBits(high, 1 - mid, low, i);
  }

  /** The bits of a number split at bit 5. */
  lemma FiveBits(high: nat, mid: nat, low: nat, i: nat)
    requires mid < 2 && low < 0x20
    ensures Bit(0x40 * high + 0x20 * mid + low, i)
         == if i < 5 then Bit(low, i) else if i == 5 then mid == 1 else Bit(high, i - 6)
  {
    var x := 0x40 * high + 0x20 * mid + low;
    assert Pow2(5) == 2 * Pow2(4) == 4 * Pow2(3) == 8 * Pow2(2) == 16 * Pow2(1) == 32;
    ScaleIsTimes(2 * high + mid, 5);
    SplitAt(x, 2 * high + mid, low, 5);
    if i < 5 {
      BitLow(x, 5, i);
    } else {
      BitShr(x, 5, i - 5);
      if i > 5 {
        assert (2 * high + mid) / 2 == high;
      }
    }
  }

  lemma {:induction false} SplitAt(x: nat, high: nat, low: nat, n: nat)
    requires x == Scale(high, n) + low && low < Pow2(n)
    ensures Shr(x, n) == high && Low(x, n) == low
    decreases n
  {
    if n > 0 {
      SplitAt(x / 2, high, low / 2, n - 1);
    }
  }

  lemma UnescapedFlips(b: u8)
    ensures Unescaped(b) == Flipped(b) && Unescaped(Flipped(b)) == b
  {
    Pow2Constants();
    forall i: nat | i < 8 ensures Bit(Unescaped(b), i) == Bit(Flipped(b), i) {
      BitUnescaped(b, i);
      FlippedBit(b, i);
    }
    SameBits(Unescaped(b), Flipped(b), 8);
    forall i: nat | i < 8 ensures Bit(Unescaped(Flipped(b)), i) == Bit(b, i) {
      BitUnescaped(Flipped(b), i);
      FlippedBit(b, i);
    }
    SameBits(Unescaped(Flipped(b)), b, 8);
  }

  /** `n` copies of a byte. */
  function Repeat(b: u8, n: nat): (s: seq<u8>)
    ensures |s| == n && forall i :: 0 <= i < n ==> s[i] == b
  {
    seq(n, _ => b)
  }

  /** What one received byte does. */
  function Step(r: Receiver, ch: u8): Receiver {
    match r.state
    case Idle =>
      if ch == DOLLAR then r.(state := GetLine, buf := [], sum := 0) else r
    case GetLine =>
      if ch == BRACE then r.(state := GetLineEsc, sum := r.sum + ch)
      else if ch == STAR then r.(state := GetLineRle, sum := r.sum + ch)
      else if ch == HASH then r.(state := Chksum1)
      else if |r.buf| >= GDB_BUFFER_SIZE - 1 then r.(state := Idle)
      else r.(buf := r.buf + [ch], sum := r.sum + ch)
    case GetLineEsc =>
      if ch == HASH then r.(state := Chksum1)
      else if |r.buf| >= GDB_BUFFER_SIZE - 1 then r.(state := Idle)
      else r.(state := GetLine, buf := r.buf + [Unescaped(ch)], sum := r.sum + ch)
    case GetLineRle =>
      if ch < SPACE then r.(state := GetLine)
      else if |r.buf| + (ch - SPACE + 3) >= GDB_BUFFER_SIZE - 1 then r.(state := Idle)
      else if |r.buf| < 1 then r.(state := GetLine)
      else r.(state := GetLine, buf := r.buf + Repeat(r.buf[|r.buf| - 1], ch - SPACE + 3), sum := r.sum + ch)
    case Chksum1 =>
      if !IsXdigit(ch) then r.(state := GetLine) else r.(state := Chksum2, checksum := 16 * FromHex(ch))
    case Chksum2 =>
      if !IsXdigit(ch) then r.(state := GetLine)
      else
        var checksum := r.checksum + FromHex(ch);
        if checksum != r.sum % 0x100 then r.(state := Idle, checksum := checksum, replies := r.replies + [NAK])
        else r.(state := Idle, checksum := checksum, replies := r.replies + [ACK], commands := r.commands + [r.buf])
  }

  /** What a stream of bytes does. */
  function Feed(r: Receiver, stream: seq<u8>): Receiver
    decreases |stream|
  {
    if stream == [] then r else Step(Feed(r, stream[..|stream| - 1]), stream[|stream| - 1])
  }

  lemma {:induction false} FeedAppend(r: Receiver, a: seq<u8>, b: seq<u8>)
    ensures Feed(r, a + b) == Feed(Feed(r, a), b)
    decreases |b|
  {
    if b == [] {
      assert a + b == a;
    } else {
      assert (a + b)[..|a + b| - 1] == a + b[..|b| - 1];
      FeedAppend(r, a, b[..|b| - 1]);
    }
  }

  lemma FeedOne(r: Receiver, ch: u8)
    ensures Feed(r, [ch]) == Step(r, ch)
  {
    assert [ch][..0] == [];
    assert Feed(r, []) == r;
  }

  /** A stored command as the command handler sees it: a string that ends at the first zero byte. */
  function Text(command: seq<u8>): (text: seq<u8>)
    ensures |text| <= |command| && text == command[..|text|] && 0 !in text
    ensures |text| < |command| ==> command[|text|] == 0
  {
    if command == [] || command[0] == 0 then [] else [command[0]] + Text(command[1..])
  }

  lemma TextIsAll(command: seq<u8>)
    ensures Text(command) == command <==> 0 !in command
  {
    if |Text(command)| == |command| {
      assert command[..|command|] == command;
    }
  }

  // ---------------------------------------------------------------- every stream

  /** Number of acknowledgements among the replies. */
  function Acks(replies: seq<u8>): nat {
    if replies == [] then 0 else Acks(replies[..|replies| - 1]) + if replies[|replies| - 1] == ACK then 1 else 0
  }

  /**
   The stored bytes leave room for the terminator, every reply is one of the two, and exactly the
   acknowledged packets were handed over.
   */
  ghost predicate Sane(r: Receiver) {
    && |r.buf| <= GDB_BUFFER_SIZE - 1
    && (r.state == Chksum2 ==> r.checksum <= 0xf0 && r.checksum % 16 == 0)
    && (forall i :: 0 <= i < |r.replies| ==> r.replies[i] == ACK || r.replies[i] == NAK)
    && |r.commands| == Acks(r.replies)
    && (forall i :: 0 <= i < |r.commands| ==> |r.commands[i]| <= GDB_BUFFER_SIZE - 1)
  }

  lemma StepIsSane(r: Receiver, ch: u8)
    requires Sane(r)
    ensures Sane(Step(r, ch))
  {
    assert (r.replies + [ACK])[..|r.replies|] == r.replies;
    assert (r.replies + [NAK])[..|r.replies|] == r.replies;
  }

  /** Whatever is received, the stored bytes never reach the end of the command buffer. */
  lemma {:induction false} EveryStreamIsSane(r: Receiver, stream: seq<u8>)
    requires Sane(r)
    ensures Sane(Feed(r, stream))
    decreases |stream|
  {
    if stream != [] {
      EveryStreamIsSane(r, stream[..|stream| - 1]);
      StepIsSane(Feed(r, stream[..|stream| - 1]), stream[|stream| - 1]);
    }
  }

  // ---------------------------------------------------------------- what a packet means

  /** The pieces of a packet: a literal byte, an escaped byte and a repeat count. */
  datatype Token = Lit(b: u8) | Esc(b: u8) | Run(count: u8)

  function Bytes(t: Token): seq<u8> {
    match t
    case Lit(b) => [b]
    case Esc(b) => [BRACE, b]
    case Run(count) => [STAR, count]
  }

  function Encode(tokens: seq<Token>): seq<u8> {
    if tokens == [] then [] else Encode(tokens[..|tokens| - 1]) + Bytes(tokens[|tokens| - 1])
  }

  /** What a token adds to the text before it. */
  function Meaning(text: seq<u8>, t: Token): seq<u8> {
    match t
    case Lit(b) => [b]
    case Esc(b) => [Unescaped(b)]
    case Run(count) => if text != [] && count >= SPACE then Repeat(text[|text| - 1], count - SPACE + 3) else []
  }

  /** The text that a packet stands for. */
  function Expand(tokens: seq<Token>): seq<u8> {
    if tokens == [] then []
    else
      var before := Expand(tokens[..|tokens| - 1]);
      before + Meaning(before, tokens[|tokens| - 1])
  }

  /** No reserved byte stands for itself, and every repeat count is valid and follows some text. */
  predicate Proper(tokens: seq<Token>) {
    tokens != [] ==> Proper(tokens[..|tokens| - 1]) && ProperToken(Expand(tokens[..|tokens| - 1]), tokens[|tokens| - 1])
  }

  predicate ProperToken(text: seq<u8>, t: Token) {
    match t
    case Lit(b) => b != BRACE && b != STAR && b != HASH
    case Esc(b) => b != HASH
    case Run(count) => count >= SPACE && text != []
  }

  /** Room for a token after the text before it. A run may not fill the last byte before the terminator. */
  predicate Room(text: seq<u8>, t: Token) {
    if t.Run? then |text + Meaning(text, t)| < GDB_BUFFER_SIZE - 1 else |text| < GDB_BUFFER_SIZE - 1
  }

  predicate Fits(tokens: seq<Token>) {
    tokens != [] ==> Fits(tokens[..|tokens| - 1]) && Room(Expand(tokens[..|tokens| - 1]), tokens[|tokens| - 1])
  }

  /** A text of at most 4094 bytes fits, however it is encoded. */
  lemma {:induction false} ShortTextFits(tokens: seq<Token>)
    requires |Expand(tokens)| <= 4094 && Proper(tokens)
    ensures Fits(tokens)
    decreases |tokens|
  {
    if tokens != [] {
      ShortTextFits(tokens[..|tokens| - 1]);
    }
  }

  function Sum(bytes: seq<u8>): nat {
    if bytes == [] then 0 else Sum(bytes[..|bytes| - 1]) + bytes[|bytes| - 1]
  }

  lemma SumOne(bytes: seq<u8>, b: u8)
    ensures Sum(bytes + [b]) == Sum(bytes) + b
  {
    assert (bytes + [b])[..|bytes|] == bytes;
  }

  /** The receiver inside a packet, after some of its bytes. */
  function Inside(r: Receiver, text: seq<u8>, sum: nat): Receiver {
    r.(state := GetLine, buf := text, sum := sum)
  }

  lemma FeedToken(r: Receiver, text: seq<u8>, sum: nat, t: Token)
    requires ProperToken(text, t)
    ensures Room(text, t) ==>
              Feed(Inside(r, text, sum), Bytes(t)) == Inside(r, text + Meaning(text, t), Sum(Bytes(t)) + sum)
    ensures !Room(text, t) ==> Feed(Inside(r, text, sum), Bytes(t)).state == Idle
    ensures !Room(text, t) ==> var after := Feed(Inside(r, text, sum), Bytes(t));
              after.replies == r.replies && after.commands == r.commands
  {
    var bytes := Bytes(t);
    var inside := Inside(r, text, sum);
    SumOne([], bytes[0]);
    assert [] + [bytes[0]] == [bytes[0]];
    FeedOne(inside, bytes[0]);
    if |bytes| == 2 {
      assert bytes == [bytes[0]] + [bytes[1]];
      SumOne([bytes[0]], bytes[1]);
      FeedAppend(inside, [bytes[0]], [bytes[1]]);
      FeedOne(Step(inside, bytes[0]), bytes[1]);
    }
  }

  lemma {:induction false} SumAppend(a: seq<u8>, b: seq<u8>)
    ensures Sum(a + b) == Sum(a) + Sum(b)
    decreases |b|
  {
    if b == [] {
      assert a + b == a;
    } else {
      assert (a + b)[..|a + b| - 1] == a + b[..|b| - 1];
      SumAppend(a, b[..|b| - 1]);
    }
  }

  /** The stored bytes are the expansion of the tokens received so far. */
  lemma {:induction false} FeedTokens(r: Receiver, tokens: seq<Token>)
    requires Proper(tokens) && Fits(tokens)
    ensures Feed(Inside(r, [], 0), Encode(tokens)) == Inside(r, Expand(tokens), Sum(Encode(tokens)))
    decreases |tokens|
  {
    if tokens != [] {
      var before, t := tokens[..|tokens| - 1], tokens[|tokens| - 1];
      FeedTokens(r, before);
      FeedMore(r, Encode(before), Expand(before), t);
    }
  }

  lemma FeedMore(r: Receiver, bytes: seq<u8>, text: seq<u8>, t: Token)
    requires Feed(Inside(r, [], 0), bytes) == Inside(r, text, Sum(bytes))
    requires ProperToken(text, t) && Room(text, t)
    ensures Feed(Inside(r, [], 0), bytes + Bytes(t)) == Inside(r, text + Meaning(text, t), Sum(bytes + Bytes(t)))
  {
    FeedAppend(Inside(r, [], 0), bytes, Bytes(t));
    FeedToken(r, text, Sum(bytes), t);
    SumAppend(bytes, Bytes(t));
  }

  /** A packet with two checksum digits. */
  function Packet(tokens: seq<Token>, hi: u8, lo: u8): seq<u8> {
    [DOLLAR] + Encode(tokens) + [HASH, hi, lo]
  }

  /**
   A packet that fits is handed over, expanded and acknowledged, exactly when its two digits are
   the sum of its bytes modulo 256; otherwise the reply asks for it again.
   */
  lemma ReceivePacket(r: Receiver, tokens: seq<Token>, hi: u8, lo: u8)
    requires r.state == Idle && Proper(tokens) && Fits(tokens) && IsXdigit(hi) && IsXdigit(lo)
    ensures var after := Feed(r, Packet(tokens, hi, lo));
            && after.state == Idle && after.buf == Expand(tokens)
            && (if 16 * FromHex(hi) + FromHex(lo) == Sum(Encode(tokens)) % 0x100
                then after.replies == r.replies + [ACK] && after.commands == r.commands + [Expand(tokens)]
                else after.replies == r.replies + [NAK] && after.commands == r.commands)
  {
    FeedOne(r, DOLLAR);
    FeedTokens(r, tokens);
    FeedAppend(r, [DOLLAR], Encode(tokens));
    FeedAppend(r, [DOLLAR] + Encode(tokens), [HASH, hi, lo]);
    FeedTrailer(Inside(r, Expand(tokens), Sum(Encode(tokens))), hi, lo);
  }

  lemma FeedTrailer(r: Receiver, hi: u8, lo: u8)
    ensures Feed(r, [HASH, hi, lo]) == Step(Step(Step(r, HASH), hi), lo)
  {
    assert [HASH, hi, lo] == [HASH] + [hi] + [lo];
    FeedAppend(r, [HASH] + [hi], [lo]);
    FeedAppend(r, [HASH], [hi]);
    FeedOne(r, HASH);
    FeedOne(Step(r, HASH), hi);
    FeedOne(Step(Step(r, HASH), hi), lo);
  }

  /** A packet is dropped without a reply at the first token that does not fit. */
  lemma DropPacket(r: Receiver, tokens: seq<Token>, t: Token)
    requires r.state == Idle && Proper(tokens) && Fits(tokens)
    requires ProperToken(Expand(tokens), t) && !Room(Expand(tokens), t)
    ensures var after := Feed(r, [DOLLAR] + Encode(tokens) + Bytes(t));
            after.state == Idle && after.replies == r.replies && after.commands == r.commands
  {
    FeedOne(r, DOLLAR);
    FeedTokens(r, tokens);
    FeedAppend(r, [DOLLAR], Encode(tokens));
    FeedAppend(r, [DOLLAR] + Encode(tokens), Bytes(t));
    FeedToken(r, Expand(tokens), Sum(Encode(tokens)), t);
  }

  // ---------------------------------------------------------------- sending

  /** What `SendPacket` sends for a payload. */
  function Framed(payload: seq<u8>): seq<u8> {
    [DOLLAR] + payload + [HASH, ToHex(Sum(payload) / 16 % 16), ToHex(Sum(payload) % 16)]
  }

  predicate Plain(payload: seq<u8>) {
    forall i :: 0 <= i < |payload| ==> payload[i] != BRACE && payload[i] != STAR && payload[i] != HASH
  }

  function Literals(payload: seq<u8>): (tokens: seq<Token>)
    ensures |tokens| == |payload|
  {
    seq(|payload|, i requires 0 <= i < |payload| => Lit(payload[i]))
  }

  lemma {:induction false} LiteralTokens(payload: seq<u8>)
    requires Plain(payload) && |payload| <= GDB_BUFFER_SIZE - 1
    ensures Encode(Literals(payload)) == Expand(Literals(payload)) == payload
    ensures Proper(Literals(payload)) && Fits(Literals(payload))
    decreases |payload|
  {
    if payload != [] {
      var n := |payload| - 1;
      assert Literals(payload)[..n] == Literals(payload[..n]);
      LiteralTokens(payload[..n]);
    }
  }

  /** The two digits that are sent denote the sum modulo 256. */
  lemma SentDigits(sum: nat)
    ensures 16 * FromHex(ToHex(sum / 16 % 16)) + FromHex(ToHex(sum % 16)) == sum % 0x100
  {
    Nibbles(sum);
  }

  lemma Nibbles(sum: nat)
    ensures 16 * (sum / 16 % 16) + sum % 16 == sum % 0x100
  {
    var q := sum / 16;
    assert sum == 16 * q + sum % 16;
    assert q == 16 * (q / 16) + q % 16;
    DivUnique(sum, 0x100, q / 16, 16 * (q % 16) + sum % 16);
  }

  /** Reader and printer undo each other on payloads without reserved bytes. */
  lemma SendThenReceive(r: Receiver, payload: seq<u8>)
    requires r.state == Idle && Plain(payload) && |payload| <= 4095
    ensures var after := Feed(r, Framed(payload));
            && after.state == Idle
            && after.replies == r.replies + [ACK] && after.commands == r.commands + [payload]
  {
    LiteralTokens(payload);
    SentDigits(Sum(payload));
    ReceivePacket(r, Literals(payload), ToHex(Sum(payload) / 16 % 16), ToHex(Sum(payload) % 16));
  }

  /** With any other two digits the payload is refused. */
  lemma WrongDigitsRefused(r: Receiver, payload: seq<u8>, hi: u8, lo: u8)
    requires r.state == Idle && Plain(payload) && |payload| <= GDB_BUFFER_SIZE - 1
    requires IsXdigit(hi) && IsXdigit(lo) && 16 * FromHex(hi) + FromHex(lo) != Sum(payload) % 0x100
    ensures var after := Feed(r, [DOLLAR] + payload + [HASH, hi, lo]);
            after.state == Idle && after.replies == r.replies + [NAK] && after.commands == r.commands
  {
    LiteralTokens(payload);
    ReceivePacket(r, Literals(payload), hi, lo);
  }

  // ---------------------------------------------------------------- escaped payloads

  predicate Reserved(b: u8) {
    b == HASH || b == BRACE || b == STAR
  }

  /** A text with every reserved byte escaped. */
  function Escaped(text: seq<u8>): seq<u8> {
    if text == [] then []
    else
      var b := text[|text| - 1];
      Escaped(text[..|text| - 1]) + if Reserved(b) then [BRACE, Flipped(b)] else [b]
  }

  function EscapedTokens(text: seq<u8>): (tokens: seq<Token>)
    ensures |tokens| == |text|
  {
    seq(|text|, i requires 0 <= i < |text| => if Reserved(text[i]) then Esc(Flipped(text[i])) else Lit(text[i]))
  }

  /** The tokens send the escaped text and mean the text, and the receiver accepts them. */
  ghost predicate Escapes(tokens: seq<Token>, text: seq<u8>) {
    Encode(tokens) == Escaped(text) && Expand(tokens) == text && Proper(tokens) && Fits(tokens)
  }

  lemma {:induction false} EscapedMeans(text: seq<u8>)
    requires |text| <= GDB_BUFFER_SIZE - 1
    ensures Escapes(EscapedTokens(text), text)
    decreases |text|
  {
    if text == [] {
      EscapedNothing();
    } else {
      EscapedMeans(text[..|text| - 1]);
      EscapedLast(text);
    }
  }

  lemma EscapedNothing()
    ensures Escapes(EscapedTokens([]), [])
  {
  }

  lemma EscapedLast(text: seq<u8>)
    requires 0 < |text| <= GDB_BUFFER_SIZE - 1 && Escapes(EscapedTokens(text[..|text| - 1]), text[..|text| - 1])
    ensures Escapes(EscapedTokens(text), text)
  {
    var n, tokens := |text| - 1, EscapedTokens(text);
    assert tokens[..n] == EscapedTokens(text[..n]) && text == text[..n] + [text[n]];
    EscapedToken(text[n], tokens[n]);
    assert Meaning(text[..n], tokens[n]) == [text[n]] && ProperToken(text[..n], tokens[n]);
  }

  lemma EscapedToken(b: u8, t: Token)
    requires t == if Reserved(b) then Esc(Flipped(b)) else Lit(b)
    ensures forall before :: Meaning(before, t) == [b] && ProperToken(before, t)
    ensures Bytes(t) == if Reserved(b) then [BRACE, Flipped(b)] else [b]
  {
    UnescapedFlips(b);
  }

  /** Any text that fits is delivered as it is when its reserved bytes are sent escaped. */
  lemma EscapedDelivered(r: Receiver, text: seq<u8>)
    requires r.state == Idle && |text| <= 4095
    ensures var after := Feed(r, Framed(Escaped(text)));
            && after.state == Idle
            && after.replies == r.replies + [ACK] && after.commands == r.commands + [text]
  {
    EscapedMeans(text);
    SentDigits(Sum(Escaped(text)));
    ReceivePacket(r, EscapedTokens(text), ToHex(Sum(Escaped(text)) / 16 % 16), ToHex(Sum(Escaped(text)) % 16));
  }

  // ---------------------------------------------------------------- characters

  /** The protocol's characters. */
  lemma Characters()
    ensures DOLLAR == '$' as int && HASH == '#' as int && BRACE == '}' as int && STAR == '*' as int
    ensures ACK == '+' as int && NAK == '-' as int && SPACE == ' ' as int
  {
  }

  const DIGITS: string := "0123456789abcdef"
  const CAPITALS: string := "0123456789ABCDEF"

  /** The printed digit, and every digit that is read. */
  lemma DigitValues(v: nat)
    requires v < 16
    ensures ToHex(v) == DIGITS[v] as int
    ensures FromHex(DIGITS[v] as int) == FromHex(CAPITALS[v] as int) == v
  {
  }

  lemma OnlyDigits(ch: u8)
    ensures IsXdigit(ch) <==> exists v: nat :: v < 16 && (ch == DIGITS[v] as int || ch == CAPITALS[v] as int)
    ensures !IsXdigit(ch) ==> FromHex(ch) == 0
  {
    if IsXdigit(ch) {
      var v := FromHex(ch);
      assert ch == DIGITS[v] as int || ch == CAPITALS[v] as int;
    }
  }

  // ---------------------------------------------------------------- malformed packets

  /** Nothing but a dollar sign has an effect between packets. */
  lemma {:induction false} IdleBytes(r: Receiver, stream: seq<u8>)
    requires r.state == Idle && DOLLAR !in stream
    ensures Feed(r, stream) == r
    decreases |stream|
  {
    if stream != [] {
      IdleBytes(r, stream[..|stream| - 1]);
    }
  }

  lemma FeedTwo(r: Receiver, a: u8, b: u8)
    ensures Feed(r, [a, b]) == Step(Step(r, a), b)
  {
    assert [a, b] == [a] + [b];
    FeedAppend(r, [a], [b]);
    FeedOne(r, a);
    FeedOne(Step(r, a), b);
  }

  /** A repeat mark without a valid count, or with nothing to repeat, stores nothing. */
  lemma BadRun(r: Receiver, text: seq<u8>, sum: nat, count: u8)
    requires count < SPACE || text == []
    ensures Feed(Inside(r, text, sum), [STAR, count]) == Inside(r, text, sum + STAR)
  {
    FeedTwo(Inside(r, text, sum), STAR, count);
  }

  /** A count stands for 29 less than its code: `0* ` is 0000. */
  lemma GoodRun(r: Receiver, text: seq<u8>, sum: nat, count: u8)
    requires text != [] && count >= 0x20 && |text| + count - 29 < 4095
    ensures Feed(Inside(r, text, sum), [STAR, count])
         == Inside(r, text + seq(count - 29, _ => text[|text| - 1]), sum + STAR + count)
  {
    FeedTwo(Inside(r, text, sum), STAR, count);
    assert Repeat(text[|text| - 1], count - 29) == seq(count - 29, _ => text[|text| - 1]);
  }

  /** A checksum mark with a digit that is none is skipped, and the packet goes on. */
  lemma BadFirstDigit(r: Receiver, text: seq<u8>, sum: nat, ch: u8)
    requires !IsXdigit(ch)
    ensures Feed(Inside(r, text, sum), [HASH, ch]) == Inside(r, text, sum)
  {
    FeedTwo(Inside(r, text, sum), HASH, ch);
  }

  lemma BadSecondDigit(r: Receiver, text: seq<u8>, sum: nat, hi: u8, ch: u8)
    requires IsXdigit(hi) && !IsXdigit(ch)
    ensures Feed(Inside(r, text, sum), [HASH, hi, ch]) == Inside(r, text, sum).(checksum := 16 * FromHex(hi))
  {
    FeedTrailer(Inside(r, text, sum), hi, ch);
  }

  /** An escape that the checksum mark cuts off stores nothing, but counts in the sum. */
  lemma CutEscape(r: Receiver, text: seq<u8>, sum: nat)
    ensures Feed(Inside(r, text, sum), [BRACE, HASH]) == Feed(Inside(r, text, sum + BRACE), [HASH])
  {
    FeedTwo(Inside(r, text, sum), BRACE, HASH);
    FeedOne(Inside(r, text, sum + BRACE), HASH);
  }

  // ---------------------------------------------------------------- payloads that are not delivered

  /** Some byte of the payload from `from` up to `to` is not a repeat mark. */
  predicate OtherByte(payload: seq<u8>, from: nat, to: nat)
    requires to <= |payload|
  {
    exists j: nat :: from <= j < to && payload[j] != STAR
  }

  /** The text is shorter than what was consumed for it, and a run of its last byte cannot make up for that. */
  predicate Behind(payload: seq<u8>, text: seq<u8>, k: nat)
    requires k <= |payload|
  {
    |text| < k && (text == [] || text[|text| - 1] != STAR || OtherByte(payload, |text|, k))
  }

  /** Somewhere the text has another byte than the payload. */
  predicate Differs(payload: seq<u8>, text: seq<u8>) {
    exists j: nat :: j < |text| && j < |payload| && text[j] != payload[j]
  }

  /** What is stored after `k` bytes of the payload: these bytes, or a text that cannot become the payload. */
  predicate Line(payload: seq<u8>, text: seq<u8>, k: nat)
    requires k <= |payload|
  {
    (text == payload[..k] && Plain(text)) || Differs(payload, text) || Behind(payload, text, k)
  }

  /** What is stored while the checksum is read. */
  predicate Closed(payload: seq<u8>, text: seq<u8>, k: nat)
    requires k <= |payload|
  {
    Differs(payload, text) || OtherByte(payload, |text|, k)
  }

  predicate Tracks(payload: seq<u8>, r: Receiver, k: nat)
    requires k <= |payload|
  {
    match r.state
    case Idle => true
    case GetLine => Line(payload, r.buf, k)
    case GetLineEsc => k > 0 && payload[k - 1] == BRACE && Line(payload, r.buf, k - 1)
    case GetLineRle => k > 0 && payload[k - 1] == STAR && Line(payload, r.buf, k - 1)
    case Chksum1 => Closed(payload, r.buf, k)
    case Chksum2 => Closed(payload, r.buf, k)
  }

  /** No command handed over since `r0` is the payload, or is seen as it. */
  ghost predicate Undelivered(r0: Receiver, r: Receiver, payload: seq<u8>) {
    && |r0.commands| <= |r.commands|
    && forall i :: |r0.commands| <= i < |r.commands| ==> Other(payload, r.commands[i])
  }

  ghost predicate Other(payload: seq<u8>, command: seq<u8>) {
    command != payload && Text(command) != payload
  }

  lemma ClosedIsOther(payload: seq<u8>, text: seq<u8>, k: nat)
    requires k <= |payload| && Closed(payload, text, k)
    ensures Other(payload, text)
  {
  }

  lemma StillDiffers(payload: seq<u8>, text: seq<u8>, more: seq<u8>)
    requires Differs(payload, text)
    ensures Differs(payload, text + more)
  {
    var j: nat :| j < |text| && j < |payload| && text[j] != payload[j];
    assert (text + more)[j] == text[j];
  }

  lemma LiteralStored(payload: seq<u8>, text: seq<u8>, k: nat)
    requires k < |payload| && Line(payload, text, k)
    requires payload[k] != BRACE && payload[k] != STAR && payload[k] != HASH
    ensures Line(payload, text + [payload[k]], k + 1)
  {
    if Differs(payload, text) {
      StillDiffers(payload, text, [payload[k]]);
    } else if text == payload[..k] && Plain(text) {
      assert payload[..k + 1] == text + [payload[k]];
    }
  }

  /** An escaped byte, whatever it stands for. */
  lemma EscapeStored(payload: seq<u8>, text: seq<u8>, k: nat, b: u8)
    requires k + 1 < |payload| && Line(payload, text, k) && payload[k] == BRACE
    ensures Line(payload, text + [b], k + 2)
  {
    if Differs(payload, text) {
      StillDiffers(payload, text, [b]);
    } else if Behind(payload, text, k) {
      assert |text| + 1 <= k;
    } else if b == STAR {
      assert (text + [b])[k] != payload[k];
    }
  }

  /** A repeat count that stores nothing. */
  lemma NothingRepeated(payload: seq<u8>, text: seq<u8>, k: nat)
    requires k + 1 < |payload| && Line(payload, text, k)
    ensures Line(payload, text, k + 2)
  {
    if Behind(payload, text, k) && text != [] && text[|text| - 1] == STAR {
      var j: nat :| |text| <= j < k && payload[j] != STAR;
      assert OtherByte(payload, |text|, k + 2);
    }
  }

  /** A run: it puts a wrong byte where the repeat mark is, or before, if it gets that far. */
  lemma RunStored(payload: seq<u8>, text: seq<u8>, k: nat, n: nat)
    requires k + 1 < |payload| && Line(payload, text, k) && payload[k] == STAR && text != [] && n > 0
    ensures Line(payload, text + Repeat(text[|text| - 1], n), k + 2)
  {
    var last := text[|text| - 1];
    var more := Repeat(last, n);
    if Differs(payload, text) {
      StillDiffers(payload, text, more);
    } else if last != STAR {
      if |text + more| >= k + 2 { assert (text + more)[k] != payload[k]; }
    } else {
      var j: nat :| |text| <= j < k && payload[j] != STAR;
      if j < |text + more| {
        assert (text + more)[j] != payload[j];
      } else {
        assert OtherByte(payload, |text + more|, k + 2);
      }
    }
  }

  /** A checksum mark is a byte that was consumed and not stored. */
  lemma LineClosed(payload: seq<u8>, text: seq<u8>, k: nat, at: nat)
    requires k <= at < |payload| && Line(payload, text, k) && payload[at] == HASH
    ensures Closed(payload, text, at + 1)
  {
    if |text| <= at {
      assert OtherByte(payload, |text|, at + 1);
    }
  }

  lemma ClosedAgain(payload: seq<u8>, text: seq<u8>, k: nat)
    requires k < |payload| && Closed(payload, text, k)
    ensures Closed(payload, text, k + 1) && Line(payload, text, k + 1)
  {
    if !Differs(payload, text) {
      var j: nat :| |text| <= j < k && payload[j] != STAR;
      assert OtherByte(payload, |text|, k + 1);
    }
  }

  lemma StepInLine(payload: seq<u8>, r: Receiver, k: nat)
    requires k < |payload| && Tracks(payload, r, k) && r.state == GetLine
    ensures Tracks(payload, Step(r, payload[k]), k + 1)
  {
    if payload[k] == HASH {
      LineClosed(payload, r.buf, k, k);
    } else if payload[k] != BRACE && payload[k] != STAR {
      LiteralStored(payload, r.buf, k);
    }
  }

  lemma StepInPair(payload: seq<u8>, r: Receiver, k: nat)
    requires k < |payload| && Tracks(payload, r, k) && (r.state == GetLineEsc || r.state == GetLineRle)
    ensures Tracks(payload, Step(r, payload[k]), k + 1)
  {
    var ch := payload[k];
    if r.state == GetLineEsc {
      if ch == HASH {
        LineClosed(payload, r.buf, k - 1, k);
      } else {
        EscapeStored(payload, r.buf, k - 1, Unescaped(ch));
      }
    } else if ch < SPACE || r.buf == [] {
      NothingRepeated(payload, r.buf, k - 1);
    } else {
      RunStored(payload, r.buf, k - 1, ch - SPACE + 3);
    }
  }

  lemma StepTracks(r0: Receiver, payload: seq<u8>, r: Receiver, k: nat)
    requires k < |payload| && Tracks(payload, r, k) && Undelivered(r0, r, payload)
    ensures Tracks(payload, Step(r, payload[k]), k + 1) && Undelivered(r0, Step(r, payload[k]), payload)
  {
    match r.state
    case Idle =>
    case GetLine => StepInLine(payload, r, k);
    case GetLineEsc => StepInPair(payload, r, k);
    case GetLineRle => StepInPair(payload, r, k);
    case Chksum1 => ClosedAgain(payload, r.buf, k);
    case Chksum2 =>
      ClosedAgain(payload, r.buf, k);
      ClosedIsOther(payload, r.buf, k);
  }

  /** The receiver after `k` bytes of the payload. */
  lemma {:induction false} PayloadTracked(r: Receiver, payload: seq<u8>, k: nat)
    requires k <= |payload|
    ensures var after := Feed(Inside(r, [], 0), payload[..k]);
            Tracks(payload, after, k) && Undelivered(r, after, payload)
  {
    if k > 0 {
      var start := payload[..k - 1];
      assert payload[..k] == start + [payload[k - 1]];
      PayloadTracked(r, payload, k - 1);
      FeedAppend(Inside(r, [], 0), start, [payload[k - 1]]);
      FeedOne(Feed(Inside(r, [], 0), start), payload[k - 1]);
      StepTracks(r, payload, Feed(Inside(r, [], 0), start), k - 1);
    }
  }

  /** Behind a payload with a reserved byte, no trailer makes a command of it. */
  lemma TrailerDelivers(r0: Receiver, payload: seq<u8>, r: Receiver, hi: u8, lo: u8)
    requires Tracks(payload, r, |payload|) && Undelivered(r0, r, payload) && !Plain(payload)
    requires IsXdigit(hi) && IsXdigit(lo)
    ensures Undelivered(r0, Feed(r, [HASH, hi, lo]), payload)
  {
    FeedTrailer(r, hi, lo);
    if r.state == GetLine {
      LineIsOther(payload, r.buf, |payload|);
    } else if r.state == GetLineEsc {
      LineIsOther(payload, r.buf, |payload| - 1);
    }
  }

  lemma LineIsOther(payload: seq<u8>, text: seq<u8>, k: nat)
    requires k <= |payload| && Line(payload, text, k) && !Plain(payload)
    ensures Other(payload, text)
  {
    assert payload[..|payload|] == payload;
    if Differs(payload, text) {
      ClosedIsOther(payload, text, k);
    }
  }

  lemma ReservedUndelivered(r: Receiver, payload: seq<u8>)
    requires r.state == Idle && !Plain(payload)
    ensures Undelivered(r, Feed(r, Framed(payload)), payload)
  {
    var hi, lo := ToHex(Sum(payload) / 16 % 16), ToHex(Sum(payload) % 16);
    FeedOne(r, DOLLAR);
    FeedAppend(r, [DOLLAR], payload);
    FeedAppend(r, [DOLLAR] + payload, [HASH, hi, lo]);
    assert payload[..|payload|] == payload;
    PayloadTracked(r, payload, |payload|);
    TrailerDelivers(r, payload, Feed(Inside(r, [], 0), payload), hi, lo);
  }

  /**
   `SendPacket` does not escape its payload: what is delivered is the payload exactly when it
   contains no reserved byte.
   */
  lemma DeliveredExactlyWhenPlain(r: Receiver, payload: seq<u8>)
    requires r.state == Idle && |payload| <= 4095
    ensures Feed(r, Framed(payload)).commands == r.commands + [payload] <==> Plain(payload)
  {
    if Plain(payload) {
      SendThenReceive(r, payload);
    } else {
      ReservedUndelivered(r, payload);
      assert (r.commands + [payload])[|r.commands|] == payload;
    }
  }

  /** The texts of all commands, as the command handler sees them. */
  function Texts(commands: seq<seq<u8>>): (texts: seq<seq<u8>>)
    ensures |texts| == |commands|
  {
    seq(|commands|, i requires 0 <= i < |commands| => Text(commands[i]))
  }

  /** The command handler sees the payload exactly when it has neither a reserved byte nor a zero byte. */
  lemma SeenExactlyWhenPlain(r: Receiver, payload: seq<u8>)
    requires r.state == Idle && |payload| <= 4095
    ensures Texts(Feed(r, Framed(payload)).commands) == Texts(r.commands) + [payload] <==> Plain(payload) && 0 !in payload
  {
    if Plain(payload) {
      SendThenReceive(r, payload);
      TextIsAll(payload);
      assert Texts(r.commands + [payload]) == Texts(r.commands) + [Text(payload)];
      assert (Texts(r.commands) + [payload])[|r.commands|] == payload;
    } else {
      ReservedUndelivered(r, payload);
      assert (Texts(r.commands) + [payload])[|r.commands|] == payload;
    }
  }

  // ---------------------------------------------------------------- replies in hexadecimal

  /** Two digits for each byte. */
  function Hex(bytes: seq<u8>): (digits: seq<u8>)
    ensures |digits| == 2 * |bytes|
  {
    if bytes == [] then []
    else
      var b := bytes[|bytes| - 1];
      Hex(bytes[..|bytes| - 1]) + [ToHex(b / 16), ToHex(b % 16)]
  }

  lemma HexNext(bytes: seq<u8>, b: u8)
    ensures Hex(bytes + [b]) == Hex(bytes) + [ToHex(b / 16), ToHex(b % 16)]
  {
    assert (bytes + [b])[..|bytes|] == bytes;
  }

  /** Every byte can be read back from its two digits, and all of them are digits. */
  lemma {:induction false} HexDigits(bytes: seq<u8>, i: nat)
    requires i < |bytes|
    ensures IsXdigit(Hex(bytes)[2 * i]) && IsXdigit(Hex(bytes)[2 * i + 1])
    ensures 16 * FromHex(Hex(bytes)[2 * i]) + FromHex(Hex(bytes)[2 * i + 1]) == bytes[i]
    decreases |bytes|
  {
    if i < |bytes| - 1 {
      HexDigits(bytes[..|bytes| - 1], i);
    }
  }

  lemma HexIsPlain(bytes: seq<u8>)
    ensures Plain(Hex(bytes)) && 0 !in Hex(bytes)
    ensures forall i :: 0 <= i < |Hex(bytes)| ==> IsXdigit(Hex(bytes)[i])
  {
    forall i | 0 <= i < |Hex(bytes)| ensures IsXdigit(Hex(bytes)[i]) {
      HexDigits(bytes, i / 2);
      assert i == 2 * (i / 2) || i == 2 * (i / 2) + 1;
    }
  }

  /** A plain payload that is one byte too long is dropped at its last byte. */
  lemma LastByteDropped(r: Receiver, start: seq<u8>, b: u8)
    requires r.state == Idle && Plain(start + [b]) && |start| == GDB_BUFFER_SIZE - 1
    ensures var after := Feed(r, [DOLLAR] + (start + [b])); after.state == Idle && after.commands == r.commands
  {
    PlainStart(start, b);
    LiteralTokens(start);
    DropPacket(r, Literals(start), Lit(b));
    assert [DOLLAR] + (start + [b]) == [DOLLAR] + start + [b];
  }

  lemma PlainStart(start: seq<u8>, b: u8)
    requires Plain(start + [b])
    ensures Plain(start) && ProperToken(start, Lit(b))
  {
    assert (start + [b])[|start|] == b;
    forall i | 0 <= i < |start| ensures start[i] != BRACE && start[i] != STAR && start[i] != HASH {
      assert (start + [b])[i] == start[i];
    }
  }

  lemma FullPayloadDropped(r: Receiver, payload: seq<u8>)
    requires r.state == Idle && Plain(payload) && |payload| == GDB_BUFFER_SIZE
    ensures Feed(r, Framed(payload)).commands == r.commands
  {
    var n := GDB_BUFFER_SIZE - 1;
    var hi, lo := ToHex(Sum(payload) / 16 % 16), ToHex(Sum(payload) % 16);
    assert payload == payload[..n] + [payload[n]];
    LastByteDropped(r, payload[..n], payload[n]);
    FeedAppend(r, [DOLLAR] + payload, [HASH, hi, lo]);
    TrailerIgnored(Feed(r, [DOLLAR] + payload), hi, lo);
  }

  lemma TrailerIgnored(r: Receiver, hi: u8, lo: u8)
    requires r.state == Idle && IsXdigit(hi) && IsXdigit(lo)
    ensures Feed(r, [HASH, hi, lo]) == r
  {
    FeedTrailer(r, hi, lo);
  }

  /** Of the memory reads that the stub allows, the reply to all but the longest is delivered. */
  lemma MemoryReplyDelivered(r: Receiver, bytes: seq<u8>)
    requires r.state == Idle && |bytes| <= 2048
    ensures Feed(r, Framed(Hex(bytes))).commands == r.commands + [Hex(bytes)] <==> |bytes| < 2048
  {
    HexIsPlain(bytes);
    if |bytes| < GDB_BUFFER_SIZE / 2 {
      SendThenReceive(r, Hex(bytes));
    } else {
      FullPayloadDropped(r, Hex(bytes));
    }
  }

  // ---------------------------------------------------------------- the stub

  class Stub {
    const cmdBuf: array<u8>
    const lastPacket: array<u8>
    var bufIndex: nat
    var lineSum: nat
    var checksum: nat
    var lastPacketLen: nat
    var state: RSState
    var sent: seq<u8>
    var commands: seq<seq<u8>>

    ghost predicate Valid()
      reads this, cmdBuf
    {
      && cmdBuf.Length == GDB_BUFFER_SIZE && lastPacket.Length == GDB_BUFFER_SIZE + 4 && cmdBuf != lastPacket
      && bufIndex <= GDB_BUFFER_SIZE - 1
      && (state == Chksum2 ==> checksum <= 0xf0 && checksum % 16 == 0 && cmdBuf[bufIndex] == 0)
    }

    /** The receiver that the fields represent; `sent` holds everything sent. */
    ghost function Abs(): Receiver
      requires Valid()
      reads this, cmdBuf
    {
      Receiver(state, cmdBuf[..bufIndex], lineSum, checksum, sent, commands)
    }

    constructor ()
      ensures Valid() && fresh(cmdBuf) && fresh(lastPacket)
      ensures Abs() == Receiver(Idle, [], 0, 0, [], [])
    {
      cmdBuf := new u8[4096];
      lastPacket := new u8[4100];
      bufIndex, lineSum, checksum, lastPacketLen := 0, 0, 0, 0;
      state := Idle;
      sent, commands := [], [];
    }

    method WriteBytes(bytes: seq<u8>)
      modifies this`sent
      ensures sent == old(sent) + bytes
    {
      sent := sent + bytes;
    }

    /** Stores one byte of the command. */
    method Put(ch: u8, received: u8)
      requires Valid() && bufIndex < GDB_BUFFER_SIZE - 1 && state != Chksum2
      modifies cmdBuf, this`bufIndex, this`lineSum
      ensures Valid() && bufIndex == old(bufIndex) + 1 && lineSum == old(lineSum) + received
      ensures cmdBuf[..bufIndex] == old(cmdBuf[..bufIndex]) + [ch]
    {
      cmdBuf[bufIndex] := ch;
      bufIndex := bufIndex + 1;
      lineSum := lineSum + received;
    }

    /** Repeats the last stored byte. */
    method PutRun(repeat: nat, received: u8)
      requires Valid() && 1 <= bufIndex && bufIndex + repeat < GDB_BUFFER_SIZE - 1 && state != Chksum2
      modifies cmdBuf, this`bufIndex, this`lineSum
      ensures Valid() && bufIndex == old(bufIndex) + repeat && lineSum == old(lineSum) + received
      ensures cmdBuf[..bufIndex] == old(cmdBuf[..bufIndex]) + Repeat(old(cmdBuf[bufIndex - 1]), repeat)
    {
      var last := cmdBuf[bufIndex - 1];
      forall i | bufIndex <= i < bufIndex + repeat {
        cmdBuf[i] := last;
      }
      bufIndex := bufIndex + repeat;
      lineSum := lineSum + received;
    }

    method HandleLine(ch: u8)
      requires Valid() && state == GetLine
      modifies this, cmdBuf
      ensures Valid() && Abs() == Step(old(Abs()), ch)
    {
      if ch == BRACE {
        state, lineSum := GetLineEsc, lineSum + ch;
      } else if ch == STAR {
        state, lineSum := GetLineRle, lineSum + ch;
      } else if ch == HASH {
        state := Chksum1;
      } else if bufIndex >= GDB_BUFFER_SIZE - 1 {
        state := Idle;
      } else {
        Put(ch, ch);
      }
    }

    method HandleEscape(ch: u8)
      requires Valid() && state == GetLineEsc
      modifies this, cmdBuf
      ensures Valid() && Abs() == Step(old(Abs()), ch)
    {
      if ch == HASH {
        state := Chksum1;
      } else if bufIndex >= GDB_BUFFER_SIZE - 1 {
        state := Idle;
      } else {
        Put(Unescaped(ch), ch);
        state := GetLine;
      }
    }

    method HandleRun(ch: u8)
      requires Valid() && state == GetLineRle
      modifies this, cmdBuf
      ensures Valid() && Abs() == Step(old(Abs()), ch)
    {
      if ch < SPACE {
        state := GetLine;
      } else {
        var repeat := ch - SPACE + 3;
        if bufIndex + repeat >= GDB_BUFFER_SIZE - 1 {
          state := Idle;
        } else if bufIndex < 1 {
          state := GetLine;
        } else {
          PutRun(repeat, ch);
          state := GetLine;
        }
      }
    }

    method HandleChecksum1(ch: u8)
      requires Valid() && state == Chksum1
      modifies this, cmdBuf
      ensures Valid() && Abs() == Step(old(Abs()), ch)
    {
      if !IsXdigit(ch) {
        state := GetLine;
      } else {
        cmdBuf[bufIndex] := 0;
        checksum := FromHex(ch) * 16;
        state := Chksum2;
      }
    }

    method HandleChecksum2(ch: u8)
      requires Valid() && state == Chksum2
      modifies this, cmdBuf
      ensures Valid() && Abs() == Step(old(Abs()), ch)
    {
      if !IsXdigit(ch) {
        state := GetLine;
      } else {
        checksum := checksum + FromHex(ch);
        if checksum != lineSum % 0x100 {
          WriteBytes([NAK]);
        } else {
          WriteBytes([ACK]);
          commands := commands + [cmdBuf[..bufIndex]];
        }
        state := Idle;
      }
    }

    /** `HandlePacket`, with the byte that it reads as a parameter. */
    method HandlePacket(ch: u8)
      requires Valid()
      modifies this, cmdBuf
      ensures Valid() && Abs() == Step(old(Abs()), ch)
    {
      match state {
        case Idle =>
          if ch == DOLLAR {
            bufIndex, lineSum := 0, 0;
            state := GetLine;
          }
        case GetLine => HandleLine(ch);
        case GetLineEsc => HandleEscape(ch);
        case GetLineRle => HandleRun(ch);
        case Chksum1 => HandleChecksum1(ch);
        case Chksum2 => HandleChecksum2(ch);
      }
    }

    /** The checksum loop of `SendPacket`. */
    static method SumBytes(buf: array<u8>, len: nat) returns (csum: nat)
      requires len <= buf.Length
      ensures csum == Sum(buf[..len])
    {
      csum := 0;
      for i := 0 to len
        invariant csum == Sum(buf[..i])
      {
        SumOne(buf[..i], buf[i]);
        assert buf[..i + 1] == buf[..i] + [buf[i]];
        csum := csum + buf[i];
      }
    }

    /** The start of a frame. */
    method PutPayload(buf: array<u8>, len: nat)
      requires Valid() && len <= buf.Length && len <= GDB_BUFFER_SIZE && buf != lastPacket
      modifies lastPacket
      ensures Valid() && lastPacket[..len + 1] == [DOLLAR] + buf[..len]
    {
      lastPacket[0] := DOLLAR;
      forall i | 0 <= i < len {
        lastPacket[1 + i] := buf[i];
      }
      assert lastPacket[1..len + 1] == buf[..len];
      assert lastPacket[..len + 1] == [lastPacket[0]] + lastPacket[1..len + 1];
    }

    /** The end of a frame. */
    method PutTrailer(len: nat, csum: nat)
      requires Valid() && len <= GDB_BUFFER_SIZE
      modifies lastPacket
      ensures Valid()
      ensures lastPacket[..len + 4] == old(lastPacket[..len + 1]) + [HASH, ToHex(csum / 16 % 16), ToHex(csum % 16)]
    {
      lastPacket[len + 1] := HASH;
      lastPacket[len + 2] := ToHex(csum / 16 % 16);
      lastPacket[len + 3] := ToHex(csum % 16);
    }

    /** `SendPacket`: the payload must leave room for the four framing bytes. */
    method SendPacket(buf: array<u8>, len: nat)
      requires Valid() && len <= buf.Length && len <= GDB_BUFFER_SIZE && buf != lastPacket
      modifies lastPacket, this`lastPacketLen, this`sent
      ensures Valid() && lastPacketLen == len + 4
      ensures lastPacket[..lastPacketLen] == Framed(buf[..len])
      ensures sent == old(sent) + Framed(buf[..len])
    {
      PutPayload(buf, len);
      var csum := SumBytes(buf, len);
      PutTrailer(len, csum);
      lastPacketLen := len + 4;
      WriteBytes(lastPacket[..lastPacketLen]);
    }

    /** `MemToHex`: the digits of `len` bytes, and a terminator. */
    static method MemToHex(buf: array<u8>, mem: array<u8>, len: nat)
      requires len <= mem.Length && 2 * len < buf.Length && buf != mem
      modifies buf
      ensures buf[..2 * len] == Hex(mem[..len]) && buf[2 * len] == 0
    {
      for i := 0 to len
        invariant buf[..2 * i] == Hex(mem[..i])
      {
        ghost var done := buf[..2 * i];
        var c := mem[i];
        buf[2 * i] := ToHex(c / 16);
        buf[2 * i + 1] := ToHex(c % 16);
        HexNext(mem[..i], c);
        assert mem[..i + 1] == mem[..i] + [c];
        assert buf[..2 * (i + 1)] == done + [ToHex(c / 16), ToHex(c % 16)];
      }
      buf[2 * len] := 0;
    }

    /** `WritePacket`: the string in `buf`, up to its terminator. */
    method WritePacket(buf: array<u8>)
      requires Valid() && 0 in buf[..] && buf.Length <= GDB_BUFFER_SIZE && buf != lastPacket
      modifies lastPacket, this`lastPacketLen, this`sent
      ensures Valid() && sent == old(sent) + Framed(Text(buf[..]))
    {
      var size := 0;
      while buf[size] != 0
        invariant size < buf.Length && 0 !in buf[..size]
        decreases buf.Length - size
      {
        assert buf[..] == buf[..size + 1] + buf[size + 1..];
        size := size + 1;
      }
      TextEnds(buf[..], size);
      SendPacket(buf, size);
    }

    /** The reply to a memory or register read. */
    method SendMemory(mem: array<u8>, len: nat)
      requires Valid() && len <= mem.Length && 2 * len < GDB_BUFFER_SIZE
      modifies lastPacket, this`lastPacketLen, this`sent
      ensures Valid() && sent == old(sent) + Framed(Hex(old(mem[..len])))
    {
      var buf := new u8[4096];
      MemToHex(buf, mem, len);
      HexIsPlain(mem[..len]);
      assert buf[..][2 * len] == 0;
      TextEnds(buf[..], 2 * len);
      WritePacket(buf);
    }
  }

  lemma {:induction false} TextEnds(command: seq<u8>, n: nat)
    requires n < |command| && 0 !in command[..n] && command[n] == 0
    ensures Text(command) == command[..n]
    decreases n
  {
    if n > 0 {
      assert command[..n][0] == command[0];
      assert command[1..][..n - 1] == command[..n][1..];
      TextEnds(command[1..], n - 1);
    }
  }
}
