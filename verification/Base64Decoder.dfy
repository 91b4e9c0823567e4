/** Streaming base64 decoder (webtalk/src/cdecode.c). */
module Base64Decoder {
  import opened Base64Encoder
  import opened Sequences

  // --- the alphabet -----------------------------------------------------------

  /** base64_decode_value as a char: the six-bit value, or a negative char (at
      least 0x80 as a word) for a character outside the alphabet. The subtraction
      wraps, so a character below '+' lands above the table too. The 80 table
      entries are given as ranges. */
  function DecodeValue(c: Byte): (r: Byte) {
    var v := c - 43;
    if v >= 80 then 0xFF
    else if v == 0 then 62
    else if v == 4 then 63
    else if 5 <= v <= 14 then v + 47
    else if v == 18 then 0xFE
    else if 22 <= v <= 47 then v - 22
    else if 54 <= v <= 79 then v - 28
    else 0xFF
  }

  predicate InAlphabet(c: Byte) {
    DecodeValue(c) < 0x80
  }

  /** Decoding a character undoes encoding a six-bit value. */
  lemma DecodeEncodeValue(v: Byte)
    ensures v < 64 ==> DecodeValue(EncodeValue(v)) == v
  {
  }

  lemma Skipped()
    ensures !InAlphabet(LF) && !InAlphabet(PAD)
  {
  }

  /** The alphabet has exactly the 64 characters that the encoder writes. */
  lemma EncodeDecodeValue(c: Byte)
    ensures InAlphabet(c) ==> DecodeValue(c) < 64 && EncodeValue(DecodeValue(c)) == c
  {
  }

  /** Exactly the characters of the alphabet are decoded, each to its place there. */
  lemma DecodesAlphabet(c: Byte)
    ensures InAlphabet(c) <==> exists v: Byte :: v < 64 && ALPHABET[v] as int == c as int
    ensures InAlphabet(c) ==> DecodeValue(c) < 64 && ALPHABET[DecodeValue(c)] as int == c as int
  {
    hide EncodeValue, DecodeValue;
    EncodeDecodeValue(c);
    DigitsAreAlphabet(DecodeValue(c));
    if v: Byte :| v < 64 && ALPHABET[v] as int == c as int {
      DigitsAreAlphabet(v);
      DecodeEncodeValue(v);
      assert EncodeValue(v) as int == c as int;
      assert EncodeValue(v) == c;
    }
  }

  // --- the coroutine ----------------------------------------------------------

  datatype DStep = StepA | StepB | StepC | StepD

  /** `plainchar` holds the bits of the byte being put together; at StepA it is a
      dead copy of whatever the output buffer holds. */
  datatype DState = DState(step: DStep, plainchar: Byte)

  const DINIT := DState(StepA, 0)

  /** The same state, but for the dead byte at StepA. */
  predicate Same(s: DState, t: DState) {
    s.step == t.step && (s.step != StepA ==> s.plainchar == t.plainchar)
  }

  function StartByte(f: Byte): (r: Byte) { (f & 0x3F) << 2 }
  function EndByteB(p: Byte, f: Byte): (r: Byte) { p | ((f & 0x30) >> 4) }
  function KeepOfStepB(f: Byte): (r: Byte) { (f & 0x0F) << 4 }
  function EndByteC(p: Byte, f: Byte): (r: Byte) { p | ((f & 0x3C) >> 2) }
  function KeepOfStepC(f: Byte): (r: Byte) { (f & 0x03) << 6 }
  function EndByteD(p: Byte, f: Byte): (r: Byte) { p | (f & 0x3F) }

  /** One alphabet character with value f. */
  function DecodeSix(s: DState, f: Byte): (r: (DState, seq<Byte>)) {
    match s.step
    case StepA => (DState(StepB, StartByte(f)), [])
    case StepB => (DState(StepC, KeepOfStepB(f)), [EndByteB(s.plainchar, f)])
    case StepC => (DState(StepD, KeepOfStepC(f)), [EndByteC(s.plainchar, f)])
    case StepD => (DState(StepA, 0), [EndByteD(s.plainchar, f)])
  }

  /** One character of input; those outside the alphabet are skipped. */
  function DecodeChar(s: DState, c: Byte): (r: (DState, seq<Byte>)) {
    if InAlphabet(c) then DecodeSix(s, DecodeValue(c)) else (s, [])
  }

  function DecodeChars(s: DState, code: seq<Byte>): (r: (DState, seq<Byte>))
    decreases |code|
  {
    if code == [] then (s, [])
    else
      var (t, p) := DecodeChar(s, code[0]);
      var (u, q) := DecodeChars(t, code[1..]);
      (u, p + q)
  }

  class DecodeState {
    var step: DStep
    var plainchar: Byte

    ghost function Value(): (r: DState)
      reads this
    {
      DState(step, plainchar)
    }

    constructor ()
      ensures Value() == DINIT
    {
      step, plainchar := StepA, 0;
    }
  }

  /** base64_decode_block. The output array has one byte more than the bytes
      returned: the byte under construction is kept there. */
  method DecodeBlock(code: seq<Byte>, plain: array<Byte>, state: DecodeState) returns (count: nat)
    requires |DecodeChars(state.Value(), code).1| < plain.Length
    modifies plain, state
    ensures count < plain.Length
    ensures plain[..count] == DecodeChars(old(state.Value()), code).1
    ensures Same(state.Value(), DecodeChars(old(state.Value()), code).0)
    ensures forall i | count < i < plain.Length :: plain[i] == old(plain[i])
  {
    hide DecodeChars, DecodeValue, StartByte, EndByteB, KeepOfStepB, EndByteC, KeepOfStepC, EndByteD;
    DecodeNothing(state.Value());
    var codechar := 0;
    count := 0;
    ghost var start, was := state.Value(), plain[..];
    var step := state.step;
    plain[0] := state.plainchar;
    while codechar < |code|
      invariant codechar <= |code| && count < plain.Length
      invariant state.Value() == start
      invariant plain[..count] == DecodeChars(start, code[..codechar]).1
      invariant Same(DState(step, plain[count]), DecodeChars(start, code[..codechar]).0)
      invariant forall i | count < i < plain.Length :: plain[i] == was[i]
    {
      DecodeSnoc(start, code, codechar);
      ghost var s, done := DecodeChars(start, code[..codechar]).0, plain[..count];
      var fragment := DecodeValue(code[codechar]);
      if fragment < 0x80 {
        match step {
        case StepA =>
          plain[count] := StartByte(fragment);
          step := StepB;
        case StepB =>
          plain[count] := EndByteB(plain[count], fragment);
          count := count + 1;
          plain[count] := KeepOfStepB(fragment);
          step := StepC;
        case StepC =>
          plain[count] := EndByteC(plain[count], fragment);
          count := count + 1;
          plain[count] := KeepOfStepC(fragment);
          step := StepD;
        case StepD =>
          plain[count] := EndByteD(plain[count], fragment);
          count := count + 1;
          step := StepA;
        }
      }
      assert plain[..count] == done + DecodeChar(s, code[codechar]).1;
      codechar := codechar + 1;
    }
    assert code[..codechar] == code;
    state.step, state.plainchar := step, plain[count];
  }

  // --- chunking does not matter -----------------------------------------------

  lemma DecodeNothing(s: DState)
    ensures DecodeChars(s, []) == (s, [])
  {
  }

  lemma DecodeOne(s: DState, c: Byte)
    ensures DecodeChars(s, [c]) == DecodeChar(s, c)
  {
    hide DecodeChar;
    assert [c][1..] == [];
    assert DecodeChar(s, c).1 + [] == DecodeChar(s, c).1;
  }

  lemma {:induction false} DecodeAppend(s: DState, a: seq<Byte>, b: seq<Byte>)
    ensures var (t, p) := DecodeChars(s, a);
            var (u, q) := DecodeChars(t, b);
            DecodeChars(s, a + b) == (u, p + q)
    decreases |a|
  {
    hide DecodeChar;
    if a == [] {
      assert a + b == b;
      assert [] + DecodeChars(s, b).1 == DecodeChars(s, b).1;
    } else {
      assert (a + b)[1..] == a[1..] + b;
      var (t, p) := DecodeChar(s, a[0]);
      DecodeAppend(t, a[1..], b);
      var (u, q) := DecodeChars(t, a[1..]);
      Associative(p, q, DecodeChars(u, b).1);
    }
  }

  lemma DecodeSnoc(s: DState, b: seq<Byte>, i: nat)
    requires i < |b|
    ensures var (t, p) := DecodeChars(s, b[..i]);
            var (u, q) := DecodeChar(t, b[i]);
            && DecodeChars(s, b[..i + 1]) == (u, p + q)
            && |p + q| <= |DecodeChars(s, b).1|
  {
    hide DecodeChar;
    assert b[..i + 1] == b[..i] + [b[i]];
    DecodeAppend(s, b[..i], [b[i]]);
    DecodeOne(DecodeChars(s, b[..i]).0, b[i]);
    assert b == b[..i + 1] + b[i + 1..];
    DecodeAppend(s, b[..i + 1], b[i + 1..]);
  }

  /** The dead byte influences nothing. */
  lemma {:induction false} DeadByte(s: DState, t: DState, code: seq<Byte>)
    requires Same(s, t)
    ensures Same(DecodeChars(s, code).0, DecodeChars(t, code).0)
    ensures DecodeChars(s, code).1 == DecodeChars(t, code).1
    decreases |code|
  {
    if code != [] {
      DeadByte(DecodeChar(s, code[0]).0, DecodeChar(t, code[0]).0, code[1..]);
    }
  }

  /** A sequence of base64_decode_block calls, where `dead` is what each call finds
      in its scratch byte. */
  function DecodeChunks(s: DState, chunks: seq<seq<Byte>>, dead: seq<Byte>): (r: (DState, seq<Byte>))
    requires |dead| == |chunks|
    decreases |chunks|
  {
    if chunks == [] then (s, [])
    else
      var (t, p) := DecodeChars(s, chunks[0]);
      var carried := if t.step == StepA then DState(StepA, dead[0]) else t;
      var (u, q) := DecodeChunks(carried, chunks[1..], dead[1..]);
      (u, p + q)
  }

  /** State and output depend on the concatenated input only, up to the dead byte. */
  lemma {:induction false} ChunksAreOneStream(s: DState, chunks: seq<seq<Byte>>, dead: seq<Byte>)
    requires |dead| == |chunks|
    ensures Same(DecodeChunks(s, chunks, dead).0, DecodeChars(s, Flatten(chunks)).0)
    ensures DecodeChunks(s, chunks, dead).1 == DecodeChars(s, Flatten(chunks)).1
    decreases |chunks|
  {
    hide DecodeChars;
    if chunks == [] {
      DecodeNothing(s);
    } else {
      var t := DecodeChars(s, chunks[0]).0;
      var carried := if t.step == StepA then DState(StepA, dead[0]) else t;
      ChunksAreOneStream(carried, chunks[1..], dead[1..]);
      DeadByte(carried, t, Flatten(chunks[1..]));
      DecodeAppend(s, chunks[0], Flatten(chunks[1..]));
    }
  }

  // --- how much comes out -----------------------------------------------------

  function AlphabetCount(code: seq<Byte>): (r: nat) {
    if code == [] then 0 else (if InAlphabet(code[0]) then 1 else 0) + AlphabetCount(code[1..])
  }

  function Phase(s: DState): (r: nat) {
    match s.step case StepA => 0 case StepB => 1 case StepC => 2 case StepD => 3
  }

  lemma StepLength(s: DState, c: Byte)
    ensures var (t, p) := DecodeChar(s, c);
            if !InAlphabet(c) then t == s && p == []
            else Phase(t) == (Phase(s) + 1) % 4 && |p| == if s.step == StepA then 0 else 1
  {
  }

  /** The bytes complete after k alphabet characters. */
  function Bytes(k: nat): (r: nat) {
    3 * (k / 4) + if k % 4 == 0 then 0 else k % 4 - 1
  }

  lemma BytesIsFloor(k: nat)
    ensures Bytes(k) == 3 * k / 4
  {
    assert k == 4 * (k / 4) + k % 4;
  }

  lemma NextQuarter(k: nat)
    ensures if k % 4 == 3 then (k + 1) % 4 == 0 && (k + 1) / 4 == k / 4 + 1
            else (k + 1) % 4 == k % 4 + 1 && (k + 1) / 4 == k / 4
  {
  }

  lemma NextBytes(k: nat)
    ensures Bytes(k + 1) == Bytes(k) + if k % 4 == 0 then 0 else 1
  {
    NextQuarter(k);
  }

  /** After k alphabet characters, the next character. */
  lemma CountStep(s: DState, k: nat, c: Byte)
    requires Phase(s) == k % 4
    ensures var (t, p) := DecodeChar(s, c);
            var n: nat := if InAlphabet(c) then k + 1 else k;
            Phase(t) == n % 4 && |p| == Bytes(n) - Bytes(k)
  {
    StepLength(s, c);
    NextBytes(k);
    NextQuarter(k);
    hide DecodeChar, InAlphabet, Bytes;
  }

  /** With k alphabet characters already seen. */
  lemma {:induction false} DecodedLengthFrom(s: DState, k: nat, code: seq<Byte>)
    requires Phase(s) == k % 4
    ensures Phase(DecodeChars(s, code).0) == (k + AlphabetCount(code)) % 4
    ensures |DecodeChars(s, code).1| == Bytes(k + AlphabetCount(code)) - Bytes(k)
    decreases |code|
  {
    hide DecodeChar, InAlphabet, Bytes, Phase;
    if code != [] {
      CountStep(s, k, code[0]);
      var n: nat := if InAlphabet(code[0]) then k + 1 else k;
      DecodedLengthFrom(DecodeChar(s, code[0]).0, n, code[1..]);
      assert n + AlphabetCount(code[1..]) == k + AlphabetCount(code);
    }
  }

  /** From the start, k alphabet characters give floor(3k / 4) bytes, in any chunks. */
  lemma DecodedLength(chunks: seq<seq<Byte>>, dead: seq<Byte>)
    requires |dead| == |chunks|
    ensures |DecodeChunks(DINIT, chunks, dead).1| == 3 * AlphabetCount(Flatten(chunks)) / 4
  {
    ChunksAreOneStream(DINIT, chunks, dead);
    DecodedLengthFrom(DINIT, 0, Flatten(chunks));
    BytesIsFloor(AlphabetCount(Flatten(chunks)));
  }

  // --- the round trip ---------------------------------------------------------

  lemma SixBits(x: Byte, y: Byte, z: Byte)
    ensures x >> 2 < 64 && ((x & 0x03) << 4) | (y >> 4) < 64
    ensures ((y & 0x0F) << 2) | (z >> 6) < 64 && z & 0x3F < 64
  {
  }

  /** The values behind a group's four characters. */
  lemma GroupValues(x: Byte, y: Byte, z: Byte)
    ensures InAlphabet(First(x)) && DecodeValue(First(x)) == x >> 2
    ensures InAlphabet(Second(x, y)) && DecodeValue(Second(x, y)) == ((x & 0x03) << 4) | (y >> 4)
    ensures InAlphabet(Third(y, z)) && DecodeValue(Third(y, z)) == ((y & 0x0F) << 2) | (z >> 6)
    ensures InAlphabet(Fourth(z)) && DecodeValue(Fourth(z)) == z & 0x3F
  {
    hide EncodeValue, DecodeValue;
    SixBits(x, y, z);
    DecodeEncodeValue(x >> 2);
    DecodeEncodeValue(((x & 0x03) << 4) | (y >> 4));
    DecodeEncodeValue(((y & 0x0F) << 2) | (z >> 6));
    DecodeEncodeValue(z & 0x3F);
  }

  /** Three bytes cut into four six-bit values and put together again. */
  lemma GroupBits(x: Byte, y: Byte, z: Byte)
    ensures EndByteB(StartByte(x >> 2), ((x & 0x03) << 4) | (y >> 4)) == x
    ensures EndByteC(KeepOfStepB(((x & 0x03) << 4) | (y >> 4)), ((y & 0x0F) << 2) | (z >> 6)) == y
    ensures EndByteD(KeepOfStepC(((y & 0x0F) << 2) | (z >> 6)), z & 0x3F) == z
  {
  }

  lemma DecodeFirst(s: DState, code: seq<Byte>)
    requires code != []
    ensures DecodeChars(s, code) ==
            (DecodeChars(DecodeChar(s, code[0]).0, code[1..]).0,
             DecodeChar(s, code[0]).1 + DecodeChars(DecodeChar(s, code[0]).0, code[1..]).1)
  {
  }

  /** What decoding gives, from any StepA state. */
  function Decoded(p: Byte, code: seq<Byte>): (r: seq<Byte>) {
    DecodeChars(DState(StepA, p), code).1
  }

  /** A whole group decodes to its three bytes, whatever follows. */
  lemma DecodeGroup(p: Byte, x: Byte, y: Byte, z: Byte, rest: seq<Byte>)
    ensures Decoded(p, Quad(x, y, z) + rest) == [x, y, z] + Decoded(0, rest)
  {
    hide First, Second, Third, Fourth, Quad, DecodeValue, StartByte, EndByteB, KeepOfStepB, EndByteC, KeepOfStepC;
    hide EndByteD, DecodeChars, InAlphabet;
    GroupValues(x, y, z);
    GroupBits(x, y, z);
    var c0, c1, c2, c3 := First(x), Second(x, y), Third(y, z), Fourth(z);
    var r3 := [c3] + rest;
    var r2 := [c2] + r3;
    var r1 := [c1] + r2;
    QuadMasks(x, y, z);
    assert Quad(x, y, z) + rest == [c0] + r1;
    assert r3[1..] == rest && r2[1..] == r3 && r1[1..] == r2 && ([c0] + r1)[1..] == r1;
    var f1, f2 := ((x & 0x03) << 4) | (y >> 4), ((y & 0x0F) << 2) | (z >> 6);
    DecodeFirst(DState(StepA, p), [c0] + r1);
    DecodeFirst(DState(StepB, StartByte(x >> 2)), r1);
    DecodeFirst(DState(StepC, KeepOfStepB(f1)), r2);
    DecodeFirst(DState(StepD, KeepOfStepC(f2)), r3);
    assert [] + ([x] + ([y] + ([z] + Decoded(0, rest)))) == [x, y, z] + Decoded(0, rest);
  }

  /** Characters outside the alphabet between groups are skipped. */
  lemma {:induction false} DecodeSkip(s: DState, junk: seq<Byte>, rest: seq<Byte>)
    requires forall i | 0 <= i < |junk| :: !InAlphabet(junk[i])
    ensures DecodeChars(s, junk + rest) == DecodeChars(s, rest)
    decreases |junk|
  {
    hide DecodeSix, InAlphabet;
    if junk == [] {
      assert junk + rest == rest;
    } else {
      DecodeFirst(s, junk + rest);
      assert (junk + rest)[1..] == junk[1..] + rest;
      DecodeSkip(s, junk[1..], rest);
      assert [] + DecodeChars(s, rest).1 == DecodeChars(s, rest).1;
    }
  }

  /** A last group of one byte decodes to it. */
  lemma DecodeOneByte(p: Byte, x: Byte)
    ensures Decoded(p, [First(x), Second(x, 0), PAD, PAD] + [LF]) == [x]
  {
    hide First, Second, DecodeValue, StartByte, EndByteB, KeepOfStepB, DecodeChars, InAlphabet;
    GroupValues(x, 0, 0);
    GroupBits(x, 0, 0);
    Skipped();
    var junk := [PAD, PAD, LF];
    var c0, c1 := First(x), Second(x, 0);
    assert [c0, c1, PAD, PAD] + [LF] == [c0] + ([c1] + junk);
    assert ([c1] + junk)[1..] == junk && ([c0] + ([c1] + junk))[1..] == [c1] + junk;
    DecodeFirst(DState(StepA, p), [c0] + ([c1] + junk));
    var s1 := DState(StepB, StartByte(x >> 2));
    DecodeFirst(s1, [c1] + junk);
    var s2 := DecodeChar(s1, c1).0;
    DecodeSkip(s2, junk, []);
    assert junk + [] == junk;
    DecodeNothing(s2);
  }

  /** A last group of two bytes decodes to them. */
  lemma DecodeTwoBytes(p: Byte, x: Byte, y: Byte)
    ensures Decoded(p, [First(x), Second(x, y), Third(y, 0), PAD] + [LF]) == [x, y]
  {
    hide First, Second, Third, DecodeValue, StartByte, EndByteB, KeepOfStepB, EndByteC, KeepOfStepC, DecodeChars, InAlphabet;
    GroupValues(x, y, 0);
    GroupBits(x, y, 0);
    Skipped();
    var junk := [PAD, LF];
    var c0, c1, c2 := First(x), Second(x, y), Third(y, 0);
    var r2 := [c2] + junk;
    var r1 := [c1] + r2;
    assert [c0, c1, c2, PAD] + [LF] == [c0] + r1;
    assert r2[1..] == junk && r1[1..] == r2 && ([c0] + r1)[1..] == r1;
    DecodeFirst(DState(StepA, p), [c0] + r1);
    var s1 := DState(StepB, StartByte(x >> 2));
    DecodeFirst(s1, r1);
    var s2 := DecodeChar(s1, c1).0;
    DecodeFirst(s2, r2);
    var s3 := DecodeChar(s2, c2).0;
    DecodeSkip(s3, junk, []);
    assert junk + [] == junk;
    DecodeNothing(s3);
  }

  lemma DecodeTail(p: Byte, b: seq<Byte>)
    requires |b| < 3
    ensures Decoded(p, Rfc4648(b) + [LF]) == b
  {
    hide First, Second, Third, Quad, DecodeChars, InAlphabet;
    Skipped();
    if |b| == 0 {
      assert [] + [LF] == [LF] + [];
      DecodeSkip(DState(StepA, p), [LF], []);
      DecodeNothing(DState(StepA, p));
    } else {
      RfcShort(b);
      hide Rfc4648, Decoded;
      if |b| == 1 {
        DecodeOneByte(p, b[0]);
        assert b == [b[0]];
      } else {
        DecodeTwoBytes(p, b[0], b[1]);
        assert b == [b[0], b[1]];
      }
    }
  }

  /** The same, with the group's line feed behind it if the line is full. */
  lemma DecodeGroupOfLine(p: Byte, k: int, b: seq<Byte>, rest: seq<Byte>)
    requires |b| >= 3 && Decoded(0, rest) == b[3..]
    ensures Decoded(p, Quad(b[0], b[1], b[2]) + if k == 17 then [LF] + rest else rest) == b
  {
    hide Quad, DecodeChars, InAlphabet;
    Skipped();
    DecodeSkip(DState(StepA, 0), [LF], rest);
    DecodeGroup(p, b[0], b[1], b[2], if k == 17 then [LF] + rest else rest);
    assert [b[0], b[1], b[2]] + b[3..] == b;
  }

  lemma {:induction false} DecodeLinesFrom(p: Byte, k: int, b: seq<Byte>)
    ensures Decoded(p, LinesFrom(k, b)) == b
    decreases |b|
  {
    hide Quad, DecodeChars, Rfc4648;
    if |b| < 3 {
      DecodeTail(p, b);
    } else {
      var next := if k == 17 then 0 else k + 1;
      DecodeLinesFrom(0, next, b[3..]);
      DecodeGroupOfLine(p, k, b, LinesFrom(next, b[3..]));
    }
  }

  /** Decoding what was encoded returns the original bytes, however the plaintext
      was cut into blocks and however the encoded text is. */
  lemma {:induction false} RoundTrip(plain: seq<seq<Byte>>, code: seq<seq<Byte>>, dead: seq<Byte>)
    requires Flatten(code) == Encoded(plain) && |dead| == |code|
    ensures DecodeChunks(DINIT, code, dead).1 == Flatten(plain)
  {
    EncodedIsLines(plain);
    LinesFromZero(Flatten(plain));
    ChunksAreOneStream(DINIT, code, dead);
    DecodeLinesFrom(0, 0, Flatten(plain));
  }
}
