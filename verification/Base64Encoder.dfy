/** Streaming base64 encoder (webtalk/src/cencode.c). Bytes and code characters are
    8-bit words; the C code's char is signed, which its masks make irrelevant. */
module Base64Encoder {
  import opened Sequences

  type Byte = bv8

  const CHARS_PER_LINE := 72
  const LF: Byte := 0x0A
  const PAD: Byte := 0x3D  // '='

  // --- section 4 of RFC 4648 --------------------------------------------------

  /** base64_encode_value: the table A-Z, a-z, 0-9, + and / as ranges of character
      codes, and '=' for values above 63. */
  function EncodeValue(v: Byte): (c: Byte)
    ensures c != LF
  {
    if v > 63 then PAD
    else if v < 26 then v + 0x41  // 'A'..'Z'
    else if v < 52 then v + 0x47  // 'a'..'z'
    else if v < 62 then v - 4     // '0'..'9'
    else if v == 62 then 0x2B     // '+'
    else 0x2F                     // '/'
  }

  /** The alphabet of section 4, table 1. */
  const UPPER: string := "ABCDEFGHIJKLMNOPQRSTUVWXYZ"
  const LOWER: string := "abcdefghijklmnopqrstuvwxyz"
  const OTHERS: string := "0123456789+/"
  const ALPHABET: string := UPPER + LOWER + OTHERS

  /** A digit is written as the character that the alphabet lists for it, padding as '='. */
  lemma DigitsAreAlphabet(v: Byte)
    ensures |ALPHABET| == 64 && (v < 64 ==> EncodeValue(v) as int == ALPHABET[v] as int)
    ensures PAD as int == '=' as int && LF as int == '\n' as int
  {
    var i := v as nat;
    if v < 26 {
      UpperCase(i);
    } else if v < 52 {
      LowerCase(i - 26);
    }
  }

  lemma UpperCase(i: nat)
    requires i < 26
    ensures UPPER[i] as int == 'A' as int + i
  {
  }

  lemma LowerCase(i: nat)
    requires i < 26
    ensures LOWER[i] as int == 'a' as int + i
  {
  }

  /** Three bytes as one number of 24 bits. */
  function Group(x: Byte, y: Byte, z: Byte): (g: bv24) {
    (x as bv24) * 0x1_0000 + (y as bv24) * 0x100 + z as bv24
  }

  /** The character for a digit of base 64, the last one of n. */
  function LastDigit(n: bv24): (c: Byte) {
    EncodeValue((n % 64) as Byte)
  }

  /** The four digits of a group, most significant first. */
  function Quad(x: Byte, y: Byte, z: Byte): (q: seq<Byte>)
    ensures |q| == 4 && forall i | 0 <= i < 4 :: q[i] != LF
  {
    var n := Group(x, y, z);
    [LastDigit(n / 0x4_0000), LastDigit(n / 0x1000), LastDigit(n / 64), LastDigit(n)]
  }

  /** The padded encoding of section 4, 24 bits at a time; a short final group is
      filled with zero bits and padded. */
  function Rfc4648(b: seq<Byte>): (code: seq<Byte>)
    decreases |b|
  {
    if |b| == 0 then []
    else if |b| == 1 then Quad(b[0], 0, 0)[..2] + [PAD, PAD]
    else if |b| == 2 then Quad(b[0], b[1], 0)[..3] + [PAD]
    else Quad(b[0], b[1], b[2]) + Rfc4648(b[3..])
  }

  /** The same text in lines: every 54 bytes fill a line of 72 characters, and one
      line feed ends the rest. */
  function Lines(b: seq<Byte>): (r: seq<Byte>)
    decreases |b|
  {
    if |b| < 54 then Rfc4648(b) + [LF] else Rfc4648(b[..54]) + [LF] + Lines(b[54..])
  }

  // --- the coroutine ----------------------------------------------------------

  datatype Step = A | B | C

  /** `result` carries the bits of the last byte not yet written; `stepcount` the
      groups of four on the current line. */
  datatype State = State(step: Step, result: Byte, stepcount: int)

  const INIT := State(A, 0, 0)

  // The digits of a group by masks and shifts on its bytes.
  function First(x: Byte): (c: Byte) { EncodeValue(x >> 2) }
  function Second(x: Byte, y: Byte): (c: Byte) { EncodeValue(((x & 0x03) << 4) | (y >> 4)) }
  function Third(y: Byte, z: Byte): (c: Byte) { EncodeValue(((y & 0x0F) << 2) | (z >> 6)) }
  function Fourth(z: Byte): (c: Byte) { EncodeValue(z & 0x3F) }

  lemma GroupDigits(x: Byte, y: Byte, z: Byte)
    ensures (Group(x, y, z) / 0x4_0000 % 64) as Byte == x >> 2
    ensures (Group(x, y, z) / 0x1000 % 64) as Byte == ((x & 0x03) << 4) | (y >> 4)
    ensures (Group(x, y, z) / 64 % 64) as Byte == ((y & 0x0F) << 2) | (z >> 6)
    ensures (Group(x, y, z) % 64) as Byte == z & 0x3F
  {
  }

  /** The masks compute the digits of the group. */
  lemma QuadMasks(x: Byte, y: Byte, z: Byte)
    ensures Quad(x, y, z) == [First(x), Second(x, y), Third(y, z), Fourth(z)]
  {
    GroupDigits(x, y, z);
    hide Group, EncodeValue;
  }

  lemma RfcShort(b: seq<Byte>)
    ensures |b| == 1 ==> Rfc4648(b) == [First(b[0]), Second(b[0], 0), PAD, PAD]
    ensures |b| == 2 ==> Rfc4648(b) == [First(b[0]), Second(b[0], b[1]), Third(b[1], 0), PAD]
  {
    hide Quad, First, Second, Third, Fourth;
    if |b| == 1 {
      QuadMasks(b[0], 0, 0);
      assert Rfc4648(b) == Quad(b[0], 0, 0)[..2] + [PAD, PAD];
    } else if |b| == 2 {
      QuadMasks(b[0], b[1], 0);
      assert Rfc4648(b) == Quad(b[0], b[1], 0)[..3] + [PAD];
    }
  }

  // What a byte contributes to the character being finished, and what it keeps back.
  function TopOfA(x: Byte): (r: Byte) { (x & 0xFC) >> 2 }
  function KeepOfA(x: Byte): (r: Byte) { (x & 0x03) << 4 }
  function TopOfB(r: Byte, x: Byte): (result: Byte) { r | ((x & 0xF0) >> 4) }
  function KeepOfB(x: Byte): (r: Byte) { (x & 0x0F) << 2 }
  function TopOfC(r: Byte, x: Byte): (result: Byte) { r | ((x & 0xC0) >> 6) }
  function KeepOfC(x: Byte): (r: Byte) { x & 0x3F }

  /** One trip through a case of the switch. */
  function EncodeByte(s: State, x: Byte): (r: (State, seq<Byte>)) {
    match s.step
    case A => (State(B, KeepOfA(x), s.stepcount), [EncodeValue(TopOfA(x))])
    case B => (State(C, KeepOfB(x), s.stepcount), [EncodeValue(TopOfB(s.result, x))])
    case C =>
      var code := [EncodeValue(TopOfC(s.result, x)), EncodeValue(KeepOfC(x))];
      if s.stepcount + 1 == CHARS_PER_LINE / 4 then (State(A, KeepOfC(x), 0), code + [LF])
      else (State(A, KeepOfC(x), s.stepcount + 1), code)
  }

  function EncodeBytes(s: State, b: seq<Byte>): (r: (State, seq<Byte>))
    decreases |b|
  {
    if b == [] then (s, [])
    else
      var (t, c) := EncodeByte(s, b[0]);
      var (u, d) := EncodeBytes(t, b[1..]);
      (u, c + d)
  }

  function EndBytes(s: State): (r: seq<Byte>) {
    match s.step
    case A => [LF]
    case B => [EncodeValue(s.result), PAD, PAD, LF]
    case C => [EncodeValue(s.result), PAD, LF]
  }

  class EncodeState {
    var step: Step
    var result: Byte
    var stepcount: int

    ghost function Value(): (r: State)
      reads this
    {
      State(step, result, stepcount)
    }

    constructor ()
      ensures Value() == INIT
    {
      step, result, stepcount := A, 0, 0;
    }
  }

  /** *codechar++ = c. */
  method Put(code: array<Byte>, codechar: nat, c: Byte) returns (next: nat)
    requires codechar < code.Length
    modifies code
    ensures next == codechar + 1 && code[..next] == old(code[..codechar]) + [c]
    ensures forall i | next <= i < code.Length :: code[i] == old(code[i])
  {
    code[codechar] := c;
    next := codechar + 1;
  }

  /** base64_encode_block: encodes what it is given, from whatever step the last
      call stopped at. The output has to fit, as in C. */
  method EncodeBlock(plaintext: seq<Byte>, code: array<Byte>, state: EncodeState) returns (count: nat)
    requires |EncodeBytes(state.Value(), plaintext).1| <= code.Length
    modifies code, state
    ensures count <= code.Length && code[count..] == old(code[..])[count..]
    ensures (state.Value(), code[..count]) == EncodeBytes(old(state.Value()), plaintext)
  {
    hide EncodeValue, EncodeBytes, TopOfA, TopOfB, TopOfC, KeepOfA, KeepOfB, KeepOfC;
    EncodeNothing(state.Value());
    var plainchar := 0;
    count := 0;
    ghost var start := state.Value();
    var step, result, stepcount := state.step, state.result, state.stepcount;
    while plainchar < |plaintext|
      invariant plainchar <= |plaintext| && count <= code.Length
      invariant state.Value() == start
      invariant (State(step, result, stepcount), code[..count]) == EncodeBytes(start, plaintext[..plainchar])
      invariant forall i | count <= i < code.Length :: code[i] == old(code[..])[i]
    {
      ghost var was := code[..count];
      var fragment := plaintext[plainchar];
      EncodeSnoc(start, plaintext, plainchar);
      ghost var (next, out) := EncodeByte(State(step, result, stepcount), fragment);
      match step {
      case A =>
        result := TopOfA(fragment);
        count := Put(code, count, EncodeValue(result));
        result := KeepOfA(fragment);
        step := B;
      case B =>
        result := TopOfB(result, fragment);
        count := Put(code, count, EncodeValue(result));
        result := KeepOfB(fragment);
        step := C;
      case C =>
        result := TopOfC(result, fragment);
        count := Put(code, count, EncodeValue(result));
        result := KeepOfC(fragment);
        count := Put(code, count, EncodeValue(result));
        stepcount := stepcount + 1;
        if stepcount == CHARS_PER_LINE / 4 {
          count := Put(code, count, LF);
          stepcount := 0;
        }
        step := A;
      }
      assert code[..count] == was + out;
      plainchar := plainchar + 1;
    }
    assert plaintext[..plainchar] == plaintext;
    state.step, state.result, state.stepcount := step, result, stepcount;
  }

  /** base64_encode_blockend. */
  method EncodeBlockend(code: array<Byte>, state: EncodeState) returns (count: nat)
    requires |EndBytes(state.Value())| <= code.Length
    modifies code
    ensures count <= code.Length && code[..count] == EndBytes(state.Value())
    ensures code[count..] == old(code[..])[count..]
  {
    count := 0;
    match state.step {
    case B =>
      code[0], code[1], code[2] := EncodeValue(state.result), PAD, PAD;
      count := 3;
    case C =>
      code[0], code[1] := EncodeValue(state.result), PAD;
      count := 2;
    case A =>
    }
    code[count] := LF;
    count := count + 1;
  }

  // --- chunking does not matter -----------------------------------------------

  lemma {:induction false} EncodeAppend(s: State, a: seq<Byte>, b: seq<Byte>)
    ensures var (t, c) := EncodeBytes(s, a);
            var (u, d) := EncodeBytes(t, b);
            EncodeBytes(s, a + b) == (u, c + d)
    decreases |a|
  {
    hide EncodeByte;
    if a == [] {
      assert a + b == b;
      assert [] + EncodeBytes(s, b).1 == EncodeBytes(s, b).1;
    } else {
      assert (a + b)[1..] == a[1..] + b;
      var (t, c) := EncodeByte(s, a[0]);
      EncodeAppend(t, a[1..], b);
      var (u, d) := EncodeBytes(t, a[1..]);
      var e := EncodeBytes(u, b).1;
      assert c + (d + e) == (c + d) + e;
    }
  }

  lemma EncodeNothing(s: State)
    ensures EncodeBytes(s, []) == (s, [])
  {
  }

  lemma EncodeOne(s: State, x: Byte)
    ensures EncodeBytes(s, [x]) == EncodeByte(s, x)
  {
    hide EncodeByte;
    assert [x][1..] == [];
    assert EncodeByte(s, x).1 + [] == EncodeByte(s, x).1;
  }

  /** The byte at position i on top of the bytes before it; also, what has been
      written by then is part of what the whole input needs. */
  lemma EncodeSnoc(s: State, b: seq<Byte>, i: nat)
    requires i < |b|
    ensures var (t, c) := EncodeBytes(s, b[..i]);
            var (u, d) := EncodeByte(t, b[i]);
            && EncodeBytes(s, b[..i + 1]) == (u, c + d)
            && |c + d| <= |EncodeBytes(s, b).1|
  {
    hide EncodeByte;
    assert b[..i + 1] == b[..i] + [b[i]];
    EncodeAppend(s, b[..i], [b[i]]);
    EncodeOne(EncodeBytes(s, b[..i]).0, b[i]);
    assert b == b[..i + 1] + b[i + 1..];
    EncodeAppend(s, b[..i + 1], b[i + 1..]);
  }

  function Flatten(chunks: seq<seq<Byte>>): (r: seq<Byte>) {
    if chunks == [] then [] else chunks[0] + Flatten(chunks[1..])
  }

  /** A sequence of base64_encode_block calls. */
  function EncodeChunks(s: State, chunks: seq<seq<Byte>>): (r: (State, seq<Byte>))
    decreases |chunks|
  {
    if chunks == [] then (s, [])
    else
      var (t, c) := EncodeBytes(s, chunks[0]);
      var (u, d) := EncodeChunks(t, chunks[1..]);
      (u, c + d)
  }

  lemma {:induction false} ChunksAreOneBlock(s: State, chunks: seq<seq<Byte>>)
    ensures EncodeChunks(s, chunks) == EncodeBytes(s, Flatten(chunks))
    decreases |chunks|
  {
    if chunks != [] {
      ChunksAreOneBlock(EncodeBytes(s, chunks[0]).0, chunks[1..]);
      EncodeAppend(s, chunks[0], Flatten(chunks[1..]));
    }
  }

  // --- the output is the RFC's, in lines --------------------------------------

  /** Everything a client sends: the blocks, then the end. */
  function Encoded(chunks: seq<seq<Byte>>): (r: seq<Byte>) {
    var (s, out) := EncodeChunks(INIT, chunks);
    out + EndBytes(s)
  }

  /** The rest of a text with k groups already on the line. */
  function LinesFrom(k: int, b: seq<Byte>): (r: seq<Byte>)
    decreases |b|
  {
    if |b| < 3 then Rfc4648(b) + [LF]
    else
      Quad(b[0], b[1], b[2]) +
      if k == 17 then [LF] + LinesFrom(0, b[3..]) else LinesFrom(k + 1, b[3..])
  }

  function Rest(s: State, b: seq<Byte>): (r: seq<Byte>) {
    var (t, out) := EncodeBytes(s, b);
    out + EndBytes(t)
  }

  lemma RestStep(s: State, b: seq<Byte>)
    requires b != []
    ensures Rest(s, b) == EncodeByte(s, b[0]).1 + Rest(EncodeByte(s, b[0]).0, b[1..])
  {
  }

  lemma QuadBits(x: Byte, y: Byte, z: Byte)
    ensures TopOfA(x) == x >> 2
    ensures TopOfB(KeepOfA(x), y) == ((x & 0x03) << 4) | (y >> 4)
    ensures TopOfC(KeepOfB(y), z) == ((y & 0x0F) << 2) | (z >> 6)
    ensures KeepOfA(x) == ((x & 0x03) << 4) | (0 >> 4)
    ensures KeepOfB(y) == ((y & 0x0F) << 2) | (0 >> 6)
  {
    assert (x & 0xFC) >> 2 == x >> 2;
    assert (y & 0xF0) >> 4 == y >> 4;
    assert (z & 0xC0) >> 6 == z >> 6;
  }

  /** The characters of a group, as the coroutine produces them. */
  lemma QuadChars(x: Byte, y: Byte, z: Byte)
    ensures EncodeValue(TopOfA(x)) == First(x)
    ensures EncodeValue(TopOfB(KeepOfA(x), y)) == Second(x, y)
    ensures EncodeValue(TopOfC(KeepOfB(y), z)) == Third(y, z)
    ensures EncodeValue(KeepOfC(z)) == Fourth(z)
    ensures EncodeValue(KeepOfA(x)) == Second(x, 0)
    ensures EncodeValue(KeepOfB(y)) == Third(y, 0)
  {
    hide EncodeValue;
    QuadBits(x, y, z);
  }

  /** A last group of one byte. */
  lemma RestOfOne(r: Byte, k: int, x: Byte)
    ensures Rest(State(A, r, k), [x]) == Rfc4648([x]) + [LF]
  {
    RfcShort([x]);
    hide Rfc4648, Quad;
    hide EncodeValue, First, Second, TopOfA, KeepOfA, EncodeBytes;
    QuadChars(x, 0, 0);
    EncodeOne(State(A, r, k), x);
  }

  /** A last group of two bytes. */
  lemma RestOfTwo(r: Byte, k: int, x: Byte, y: Byte)
    ensures Rest(State(A, r, k), [x, y]) == Rfc4648([x, y]) + [LF]
  {
    RfcShort([x, y]);
    hide Rfc4648, Quad;
    hide EncodeValue, First, Second, Third, TopOfA, TopOfB, KeepOfA, KeepOfB, EncodeBytes;
    var s := State(A, r, k);
    QuadChars(x, y, 0);
    EncodeOne(s, x);
    EncodeOne(State(B, KeepOfA(x), k), y);
    assert [x, y] == [x] + [y];
    EncodeAppend(s, [x], [y]);
    assert [First(x)] + [Second(x, y)] == [First(x), Second(x, y)];
  }

  lemma RestOfTail(r: Byte, k: int, b: seq<Byte>)
    requires |b| < 3
    ensures Rest(State(A, r, k), b) == Rfc4648(b) + [LF]
  {
    hide Rest, Rfc4648;
    if |b| == 0 {
      RestOfNone(r, k);
    } else if |b| == 1 {
      RestOfOne(r, k, b[0]);
      assert b == [b[0]];
    } else {
      RestOfTwo(r, k, b[0], b[1]);
      assert b == [b[0], b[1]];
    }
  }

  lemma RestOfNone(r: Byte, k: int)
    ensures Rest(State(A, r, k), []) == Rfc4648([]) + [LF]
  {
    EncodeNothing(State(A, r, k));
    hide EncodeBytes;
  }

  /** What the coroutine writes for a group, as it finishes a line or not. */
  function GroupOut(x: Byte, y: Byte, z: Byte, full: bool): (r: seq<Byte>) {
    var c2, c3 := EncodeValue(TopOfC(KeepOfB(y), z)), EncodeValue(KeepOfC(z));
    [EncodeValue(TopOfA(x))] + ([EncodeValue(TopOfB(KeepOfA(x), y))] + ([c2, c3] + if full then [LF] else []))
  }

  lemma GroupIsQuad(x: Byte, y: Byte, z: Byte, full: bool)
    ensures GroupOut(x, y, z, full) == Quad(x, y, z) + if full then [LF] else []
  {
    QuadMasks(x, y, z);
    QuadChars(x, y, z);
    hide EncodeValue, First, Second, Third, Fourth, Quad, TopOfA, TopOfB, TopOfC, KeepOfA, KeepOfB, KeepOfC;
  }

  /** Three trips round the coroutine. */
  lemma RestOfThree(r: Byte, k: int, b: seq<Byte>)
    requires |b| >= 3
    ensures Rest(State(A, r, k), b) ==
            GroupOut(b[0], b[1], b[2], k == 17) + Rest(State(A, KeepOfC(b[2]), if k == 17 then 0 else k + 1), b[3..])
  {
    hide EncodeValue, TopOfA, TopOfB, TopOfC, KeepOfA, KeepOfB, KeepOfC, Rest;
    var x, y, z := b[0], b[1], b[2];
    var s1, s2 := State(B, KeepOfA(x), k), State(C, KeepOfB(y), k);
    var s3 := State(A, KeepOfC(z), if k == 17 then 0 else k + 1);
    RestStep(State(A, r, k), b);
    RestStep(s1, b[1..]);
    assert b[1..][0] == y && b[1..][1..] == b[2..];
    RestStep(s2, b[2..]);
    assert b[2..][0] == z && b[2..][1..] == b[3..];
    var o1, o2 := [EncodeValue(TopOfA(x))], [EncodeValue(TopOfB(KeepOfA(x), y))];
    var o3, rest := EncodeByte(s2, z).1, Rest(s3, b[3..]);
    assert GroupOut(x, y, z, k == 17) == o1 + (o2 + o3);
    Associative(o1, o2 + o3, rest);
    Associative(o2, o3, rest);
  }

  /** A whole group. */
  lemma RestOfGroup(r: Byte, k: int, b: seq<Byte>)
    requires |b| >= 3
    ensures Rest(State(A, r, k), b) ==
            Quad(b[0], b[1], b[2]) +
            if k == 17 then [LF] + Rest(State(A, KeepOfC(b[2]), 0), b[3..])
            else Rest(State(A, KeepOfC(b[2]), k + 1), b[3..])
  {
    RestOfThree(r, k, b);
    GroupIsQuad(b[0], b[1], b[2], k == 17);
    hide Quad, Rest, KeepOfC, GroupOut;
    var rest := Rest(State(A, KeepOfC(b[2]), if k == 17 then 0 else k + 1), b[3..]);
    Associative(Quad(b[0], b[1], b[2]), if k == 17 then [LF] else [], rest);
    assert [] + rest == rest;
  }

  lemma {:induction false} RestIsLines(r: Byte, k: int, b: seq<Byte>)
    requires 0 <= k < 18
    ensures Rest(State(A, r, k), b) == LinesFrom(k, b)
    decreases |b|
  {
    if |b| < 3 {
      RestOfTail(r, k, b);
    } else {
      hide Rest;
      RestOfGroup(r, k, b);
      RestIsLines(KeepOfC(b[2]), if k == 17 then 0 else k + 1, b[3..]);
    }
  }

  lemma {:induction false} RfcAppend(a: seq<Byte>, b: seq<Byte>)
    requires |a| % 3 == 0
    ensures Rfc4648(a + b) == Rfc4648(a) + Rfc4648(b)
    decreases |a|
  {
    if a == [] {
      assert a + b == b;
    } else {
      assert (a + b)[3..] == a[3..] + b;
      RfcAppend(a[3..], b);
    }
  }

  lemma RfcGroup(b: seq<Byte>, n: nat)
    requires 3 <= n <= |b|
    ensures Rfc4648(b[..n]) == Quad(b[0], b[1], b[2]) + Rfc4648(b[3..][..n - 3])
  {
    assert b[..n][3..] == b[3..][..n - 3];
  }

  lemma LastGroupOnLine(b: seq<Byte>)
    requires |b| >= 3
    ensures LinesFrom(17, b) == Rfc4648(b[..3]) + ([LF] + LinesFrom(0, b[3..]))
  {
    RfcGroup(b, 3);
    var q := Quad(b[0], b[1], b[2]);
    assert q + [] == q;
  }

  lemma NextGroup(k: int, b: seq<Byte>)
    requires k != 17 && |b| >= 3
    ensures LinesFrom(k, b) == Quad(b[0], b[1], b[2]) + LinesFrom(k + 1, b[3..])
  {
  }

  /** A line in progress is finished after 18 - k more groups. */
  lemma {:induction false} FinishLine(k: int, b: seq<Byte>)
    requires 0 <= k < 18 && |b| >= 3 * (18 - k)
    ensures var room := 3 * (18 - k);
            LinesFrom(k, b) == Rfc4648(b[..room]) + ([LF] + LinesFrom(0, b[room..]))
    decreases |b|
  {
    hide Quad, Rfc4648, LinesFrom;
    if k == 17 {
      LastGroupOnLine(b);
    } else {
      NextGroup(k, b);
      var room := 3 * (18 - k);
      FinishLine(k + 1, b[3..]);
      RfcGroup(b, room);
      assert b[3..][room - 3..] == b[room..];
      Associative(Quad(b[0], b[1], b[2]), Rfc4648(b[3..][..room - 3]), [LF] + LinesFrom(0, b[room..]));
    }
  }

  lemma {:induction false} UnfinishedLine(k: int, b: seq<Byte>)
    requires 0 <= k < 18 && |b| < 3 * (18 - k)
    ensures LinesFrom(k, b) == Rfc4648(b) + [LF]
    decreases |b|
  {
    if |b| >= 3 {
      UnfinishedLine(k + 1, b[3..]);
      Associative(Quad(b[0], b[1], b[2]), Rfc4648(b[3..]), [LF]);
    }
  }

  lemma {:induction false} LinesFromZero(b: seq<Byte>)
    ensures LinesFrom(0, b) == Lines(b)
    decreases |b|
  {
    if |b| < 54 {
      UnfinishedLine(0, b);
    } else {
      FinishLine(0, b);
      LinesFromZero(b[54..]);
      Associative(Rfc4648(b[..54]), [LF], Lines(b[54..]));
    }
  }

  /** For every chunking, the encoder's whole output is the text in lines. */
  lemma EncodedIsLines(chunks: seq<seq<Byte>>)
    ensures Encoded(chunks) == Lines(Flatten(chunks))
  {
    ChunksAreOneBlock(INIT, chunks);
    RestIsLines(0, 0, Flatten(chunks));
    LinesFromZero(Flatten(chunks));
  }

  function StripLF(code: seq<Byte>): (r: seq<Byte>) {
    if code == [] then [] else (if code[0] == LF then [] else [code[0]]) + StripLF(code[1..])
  }

  lemma {:induction false} StripAppend(a: seq<Byte>, b: seq<Byte>)
    ensures StripLF(a + b) == StripLF(a) + StripLF(b)
  {
    if a == [] {
      assert a + b == b;
    } else {
      assert (a + b)[1..] == a[1..] + b;
      StripAppend(a[1..], b);
      Associative(if a[0] == LF then [] else [a[0]], StripLF(a[1..]), StripLF(b));
    }
  }

  lemma {:induction false} StripNothing(code: seq<Byte>)
    requires forall i | 0 <= i < |code| :: code[i] != LF
    ensures StripLF(code) == code
  {
    if code != [] {
      StripNothing(code[1..]);
    }
  }

  lemma {:induction false} RfcHasNoLF(b: seq<Byte>)
    ensures forall i | 0 <= i < |Rfc4648(b)| :: Rfc4648(b)[i] != LF
    decreases |b|
  {
    if |b| >= 3 {
      RfcHasNoLF(b[3..]);
      var q, rest := Quad(b[0], b[1], b[2]), Rfc4648(b[3..]);
      assert forall i | 0 <= i < |q + rest| :: (q + rest)[i] == if i < 4 then q[i] else rest[i - 4];
    }
  }

  lemma StripLine(b: seq<Byte>)
    ensures StripLF(Rfc4648(b) + [LF]) == Rfc4648(b)
  {
    RfcHasNoLF(b);
    StripNothing(Rfc4648(b));
    StripAppend(Rfc4648(b), [LF]);
    assert [LF][1..] == [];
  }

  lemma {:induction false} LinesText(b: seq<Byte>)
    ensures StripLF(Lines(b)) == Rfc4648(b)
    decreases |b|
  {
    hide Rfc4648;
    if |b| < 54 {
      StripLine(b);
    } else {
      StripLine(b[..54]);
      LinesText(b[54..]);
      StripAppend(Rfc4648(b[..54]) + [LF], Lines(b[54..]));
      RfcAppend(b[..54], b[54..]);
      assert b[..54] + b[54..] == b;
    }
  }

  lemma {:induction false} RfcLength(b: seq<Byte>)
    ensures |Rfc4648(b)| == 4 * ((|b| + 2) / 3)
    decreases |b|
  {
    if |b| >= 3 {
      RfcLength(b[3..]);
    }
  }

  lemma OneLineLess(n: nat)
    requires n >= 54
    ensures (n - 54) / 54 == n / 54 - 1 && (n - 54 + 2) / 3 == (n + 2) / 3 - 18
  {
  }

  lemma {:induction false} LinesLength(b: seq<Byte>)
    ensures |Lines(b)| == 4 * ((|b| + 2) / 3) + |b| / 54 + 1
    decreases |b|
  {
    hide Rfc4648;
    if |b| < 54 {
      RfcLength(b);
    } else {
      RfcLength(b[..54]);
      LinesLength(b[54..]);
      OneLineLess(|b|);
    }
  }

  /** Without its line feeds the output is the padded base64 of RFC 4648; its length
      is exactly 4 * ceil(n / 3) + floor(n / 54) + 1. */
  lemma EncodedIsRfc4648(chunks: seq<seq<Byte>>)
    ensures var n := |Flatten(chunks)|;
            && StripLF(Encoded(chunks)) == Rfc4648(Flatten(chunks))
            && |Encoded(chunks)| == 4 * ((n + 2) / 3) + n / 54 + 1
  {
    EncodedIsLines(chunks);
    LinesText(Flatten(chunks));
    LinesLength(Flatten(chunks));
  }
}
