/** Xilinx bitfile container (attic/bitfile.c): a header followed by tagged chunks.
    Writing puts the Xilinx chunks 'a'..'e' first and keeps the others in order. */
module Bitfile {
  import opened Sequences
  import opened Wrappers

  type Byte = b: int | 0 <= b < 256

  const MAXCHUNKS := 50
  const HEADER: seq<Byte> := [0x00, 0x09, 0x0f, 0xf0, 0x0f, 0xf0, 0x0f, 0xf0, 0x0f, 0xf0, 0x00, 0x00, 0x01]
  const XILINX: seq<Byte> := [0x61, 0x62, 0x63, 0x64, 0x65]  // "abcde"
  const INT_LIMIT := 0x8000_0000

  datatype Chunk = Chunk(tag: Byte, body: seq<Byte>)

  // strchr also finds the terminating NUL of the string it searches, so a zero tag
  // counts as a member of both tag strings.
  predicate IsSmall(tag: Byte) {
    tag == 0 || 0x61 <= tag <= 0x64
  }

  predicate IsXilinx(tag: Byte) {
    tag == 0 || 0x61 <= tag <= 0x65
  }

  // --- searching --------------------------------------------------------------

  /** The chunk number n among those tagged `tag`. */
  function Nth(chunks: seq<Chunk>, tag: Byte, n: int): (r: Option<Chunk>) {
    if chunks == [] then None
    else if chunks[0].tag != tag then Nth(chunks[1..], tag, n)
    else if n == 0 then Some(chunks[0])
    else Nth(chunks[1..], tag, n - 1)
  }

  function Count(chunks: seq<Chunk>, tag: Byte): (r: nat) {
    if chunks == [] then 0
    else (if chunks[0].tag == tag then 1 else 0) + Count(chunks[1..], tag)
  }

  lemma {:induction false} NthFound(chunks: seq<Chunk>, tag: Byte, n: int)
    ensures Nth(chunks, tag, n).Some? <==> 0 <= n < Count(chunks, tag)
    ensures Nth(chunks, tag, n).Some? ==> Nth(chunks, tag, n).value in chunks && Nth(chunks, tag, n).value.tag == tag
  {
    if chunks != [] {
      NthFound(chunks[1..], tag, n);
      NthFound(chunks[1..], tag, n - 1);
    }
  }

  /** Every chunk is found under the number of chunks with its tag before it. */
  lemma {:induction false} NthIsNumbered(chunks: seq<Chunk>, i: nat)
    requires i < |chunks|
    ensures Nth(chunks, chunks[i].tag, Count(chunks[..i], chunks[i].tag)) == Some(chunks[i])
  {
    if i > 0 {
      NthIsNumbered(chunks[1..], i - 1);
      assert chunks[..i][1..] == chunks[1..][..i - 1];
    }
  }

  lemma {:induction false} NthAppend(a: seq<Chunk>, b: seq<Chunk>, tag: Byte, n: int)
    requires n >= 0
    ensures Count(a + b, tag) == Count(a, tag) + Count(b, tag)
    ensures Nth(a + b, tag, n) == if n < Count(a, tag) then Nth(a, tag, n) else Nth(b, tag, n - Count(a, tag))
  {
    if a == [] {
      assert a + b == b;
    } else {
      assert (a + b)[1..] == a[1..] + b;
      NthAppend(a[1..], b, tag, n);
      if n > 0 {
        NthAppend(a[1..], b, tag, n - 1);
      }
    }
  }

  // --- canonical order --------------------------------------------------------

  /** For each tag in turn, its first chunk if there is one. */
  function Firsts(chunks: seq<Chunk>, tags: seq<Byte>): (r: seq<Chunk>) {
    if tags == [] then []
    else
      (match Nth(chunks, tags[0], 0) case None => [] case Some(ch) => [ch]) + Firsts(chunks, tags[1..])
  }

  function Others(chunks: seq<Chunk>): (r: seq<Chunk>) {
    if chunks == [] then []
    else (if IsXilinx(chunks[0].tag) then [] else [chunks[0]]) + Others(chunks[1..])
  }

  function Ordered(chunks: seq<Chunk>, tags: seq<Byte>): (r: seq<Chunk>) {
    Firsts(chunks, tags) + Others(chunks)
  }

  /** The chunks in the order in which they are written. */
  function Canonical(chunks: seq<Chunk>): (r: seq<Chunk>) {
    Ordered(chunks, XILINX)
  }

  lemma {:induction false} FirstsCount(chunks: seq<Chunk>, tags: seq<Byte>, tag: Byte)
    requires Distinct(tags)
    ensures Count(Firsts(chunks, tags), tag) == if tag in tags && Count(chunks, tag) > 0 then 1 else 0
    ensures Nth(Firsts(chunks, tags), tag, 0) == if tag in tags then Nth(chunks, tag, 0) else None
  {
    if tags != [] {
      FirstsCount(chunks, tags[1..], tag);
      NthFound(chunks, tags[0], 0);
      var head := match Nth(chunks, tags[0], 0) case None => [] case Some(ch) => [ch];
      NthAppend(head, Firsts(chunks, tags[1..]), tag, 0);
      if head != [] {
        assert head[1..] == [];
      }
      assert tag in tags <==> tag == tags[0] || tag in tags[1..];
    }
  }

  lemma {:induction false} OthersNth(chunks: seq<Chunk>, tag: Byte, n: int)
    ensures Nth(Others(chunks), tag, n) == if IsXilinx(tag) then None else Nth(chunks, tag, n)
    ensures Count(Others(chunks), tag) == if IsXilinx(tag) then 0 else Count(chunks, tag)
  {
    if chunks != [] {
      OthersNth(chunks[1..], tag, n);
      OthersNth(chunks[1..], tag, n - 1);
      var rest := Others(chunks[1..]);
      if !IsXilinx(chunks[0].tag) {
        assert ([chunks[0]] + rest)[1..] == rest;
      } else {
        assert [] + rest == rest;
      }
    }
  }

  lemma XilinxTags(tag: Byte)
    ensures tag in XILINX <==> IsXilinx(tag) && tag != 0
    ensures Distinct(XILINX)
  {
    assert IsXilinx(tag) && tag != 0 ==> tag == XILINX[tag - 0x61];
  }

  /** Looking up tag and n in the canonical order. */
  lemma CanonicalNth(chunks: seq<Chunk>, tag: Byte, n: int)
    ensures Nth(Canonical(chunks), tag, n) ==
            if tag == 0 || (IsXilinx(tag) && n != 0) then None else Nth(chunks, tag, n)
  {
    if n < 0 {
      NthFound(Canonical(chunks), tag, n);
      NthFound(chunks, tag, n);
    } else {
      XilinxTags(tag);
      OrderedNth(chunks, XILINX, tag, n);
    }
  }

  lemma OrderedNth(chunks: seq<Chunk>, tags: seq<Byte>, tag: Byte, n: nat)
    requires Distinct(tags) && (tag in tags <==> IsXilinx(tag) && tag != 0)
    ensures Nth(Ordered(chunks, tags), tag, n) ==
            if tag == 0 || (IsXilinx(tag) && n != 0) then None else Nth(chunks, tag, n)
  {
    var k := Count(Firsts(chunks, tags), tag);
    NthAppend(Firsts(chunks, tags), Others(chunks), tag, n);
    FirstsCount(chunks, tags, tag);
    OthersNth(chunks, tag, n - k);
    NthFound(chunks, tag, n);
  }

  ghost predicate SameLookups(a: seq<Chunk>, b: seq<Chunk>) {
    forall tag: Byte, n: int :: Nth(a, tag, n) == Nth(b, tag, n)
  }

  /** What a caller has to respect for every lookup to survive a round trip. */
  predicate RoundTrips(chunks: seq<Chunk>) {
    && Count(chunks, 0) == 0
    && forall i | 0 <= i < |XILINX| :: Count(chunks, XILINX[i]) <= 1
  }

  /** Canonical order answers every lookup as before if and only if no tag is zero
      and no Xilinx tag is used twice. */
  lemma CanonicalKeepsLookups(chunks: seq<Chunk>)
    ensures SameLookups(Canonical(chunks), chunks) <==> RoundTrips(chunks)
  {
    if RoundTrips(chunks) {
      forall tag: Byte, n: int ensures Nth(Canonical(chunks), tag, n) == Nth(chunks, tag, n) {
        CanonicalNth(chunks, tag, n);
        NthFound(chunks, tag, n);
        assert IsXilinx(tag) ==> tag == 0 || tag == XILINX[tag - 0x61];
      }
    } else if Count(chunks, 0) > 0 {
      CanonicalNth(chunks, 0, 0);
      NthFound(chunks, 0, 0);
      assert Nth(Canonical(chunks), 0, 0) != Nth(chunks, 0, 0);
    } else {
      var i :| 0 <= i < |XILINX| && Count(chunks, XILINX[i]) > 1;
      CanonicalNth(chunks, XILINX[i], 1);
      NthFound(chunks, XILINX[i], 1);
      assert Nth(Canonical(chunks), XILINX[i], 1) != Nth(chunks, XILINX[i], 1);
    }
  }

  lemma {:induction false} FirstsSame(a: seq<Chunk>, b: seq<Chunk>, tags: seq<Byte>)
    requires forall i | 0 <= i < |tags| :: Nth(a, tags[i], 0) == Nth(b, tags[i], 0)
    ensures Firsts(a, tags) == Firsts(b, tags)
  {
    if tags != [] {
      FirstsSame(a, b, tags[1..]);
    }
  }

  lemma {:induction false} OthersAppend(a: seq<Chunk>, b: seq<Chunk>)
    ensures Others(a + b) == Others(a) + Others(b)
  {
    if a == [] {
      assert a + b == b;
    } else {
      OthersHead(a, b);
      hide Others;
      OthersAppend(a[1..], b);
      Associative(if IsXilinx(a[0].tag) then [] else [a[0]], Others(a[1..]), Others(b));
    }
  }

  lemma OthersHead(a: seq<Chunk>, b: seq<Chunk>)
    requires a != []
    ensures Others(a) == (if IsXilinx(a[0].tag) then [] else [a[0]]) + Others(a[1..])
    ensures Others(a + b) == (if IsXilinx(a[0].tag) then [] else [a[0]]) + Others(a[1..] + b)
  {
    assert (a + b)[1..] == a[1..] + b;
  }

  /** A chunk that is not a Xilinx one stays between the same others. */
  lemma OthersKeepOrder(a: seq<Chunk>, c: Chunk, b: seq<Chunk>)
    ensures Others(a + ([c] + b)) ==
            Others(a) + ((if c.tag in {0, 0x61, 0x62, 0x63, 0x64, 0x65} then [] else [c]) + Others(b))
  {
    OthersAppend(a, [c] + b);
    OthersAppend([c], b);
  }

  /** The tags of the chunks go up, and only those listed occur. */
  lemma {:induction false} FirstsAscend(chunks: seq<Chunk>, tags: seq<Byte>)
    requires forall i, j | 0 <= i < j < |tags| :: tags[i] < tags[j]
    ensures var r := Firsts(chunks, tags);
            && |r| <= |tags| && (forall i | 0 <= i < |r| :: r[i].tag in tags)
            && forall i, j | 0 <= i < j < |r| :: r[i].tag < r[j].tag
  {
    if tags != [] {
      FirstsAscend(chunks, tags[1..]);
      NthFound(chunks, tags[0], 0);
    }
  }

  /** In the file chunks tagged 'a' to 'e' come first, each tag once and in this order;
      all others follow in the order in which they were added. */
  lemma CanonicalOrder(chunks: seq<Chunk>) returns (k: nat)
    ensures var r := Canonical(chunks);
            && k <= |r| && k <= 5 && r[k..] == Others(chunks)
            && (forall i | 0 <= i < k :: 0x61 <= r[i].tag <= 0x65)
            && forall i, j | 0 <= i < j < k :: r[i].tag < r[j].tag
  {
    FirstsAscend(chunks, XILINX);
    k := |Firsts(chunks, XILINX)|;
    assert forall i | 0 <= i < k :: Canonical(chunks)[i] == Firsts(chunks, XILINX)[i];
  }

  lemma {:induction false} OthersOfOthers(chunks: seq<Chunk>)
    ensures Others(Others(chunks)) == Others(chunks)
  {
    if chunks != [] {
      OthersOfOthers(chunks[1..]);
      if IsXilinx(chunks[0].tag) {
        assert Others(chunks) == [] + Others(chunks[1..]) == Others(chunks[1..]);
      } else {
        assert Others(chunks)[1..] == Others(chunks[1..]);
      }
    }
  }

  lemma {:induction false} OthersOfFirsts(chunks: seq<Chunk>, tags: seq<Byte>)
    requires forall i | 0 <= i < |tags| :: IsXilinx(tags[i])
    ensures Others(Firsts(chunks, tags)) == []
  {
    if tags != [] {
      OthersOfFirsts(chunks, tags[1..]);
      NthFound(chunks, tags[0], 0);
      match Nth(chunks, tags[0], 0)
      case None => assert Firsts(chunks, tags) == [] + Firsts(chunks, tags[1..]) == Firsts(chunks, tags[1..]);
      case Some(ch) => assert ([ch] + Firsts(chunks, tags[1..]))[1..] == Firsts(chunks, tags[1..]);
    }
  }

  lemma OrderedTwice(chunks: seq<Chunk>, tags: seq<Byte>)
    requires forall i | 0 <= i < |tags| :: IsXilinx(tags[i])
    requires forall i | 0 <= i < |tags| :: Nth(Ordered(chunks, tags), tags[i], 0) == Nth(chunks, tags[i], 0)
    ensures Ordered(Ordered(chunks, tags), tags) == Ordered(chunks, tags)
    ensures Others(Ordered(chunks, tags)) == Others(chunks)
  {
    FirstsSame(Ordered(chunks, tags), chunks, tags);
    OthersAppend(Firsts(chunks, tags), Others(chunks));
    OthersOfFirsts(chunks, tags);
    OthersOfOthers(chunks);
    assert [] + Others(chunks) == Others(chunks);
  }

  /** Canonical order is a fixed point: the Xilinx chunks stay where they are and
      the others keep their original relative order. */
  lemma CanonicalTwice(chunks: seq<Chunk>)
    ensures Canonical(Canonical(chunks)) == Canonical(chunks)
    ensures Others(Canonical(chunks)) == Others(chunks)
  {
    forall i | 0 <= i < |XILINX|
      ensures IsXilinx(XILINX[i]) && Nth(Canonical(chunks), XILINX[i], 0) == Nth(chunks, XILINX[i], 0)
    {
      XilinxTags(XILINX[i]);
      CanonicalNth(chunks, XILINX[i], 0);
    }
    OrderedTwice(chunks, XILINX);
  }

  // --- the byte format --------------------------------------------------------

  function LenBytes(tag: Byte, len: nat): (r: seq<Byte>)
  {
    if IsSmall(tag) then [(len / 0x100) % 0x100, len % 0x100]
    else [(len / 0x100_0000) % 0x100, (len / 0x1_0000) % 0x100, (len / 0x100) % 0x100, len % 0x100]
  }

  function Serialize(ch: Chunk): (r: seq<Byte>) {
    [ch.tag] + LenBytes(ch.tag, |ch.body|) + ch.body
  }

  function SerializeAll(chunks: seq<Chunk>): (r: seq<Byte>) {
    if chunks == [] then [] else Serialize(chunks[0]) + SerializeAll(chunks[1..])
  }

  /** End of file, a defect, or a chunk and the bytes behind it. */
  datatype Parsed = End | Bad | Got(chunk: Chunk, rest: seq<Byte>)

  function ParseLen(tag: Byte, b: seq<Byte>): (r: int)
    requires |b| == if IsSmall(tag) then 2 else 4
  {
    if IsSmall(tag) then (b[0] as int) * 0x100 + b[1]
    else
      var u: int := (b[0] as int) * 0x100_0000 + (b[1] as int) * 0x1_0000 + (b[2] as int) * 0x100 + b[3];
      if u < INT_LIMIT then u else u - 2 * INT_LIMIT
  }

  function ParseChunk(bytes: seq<Byte>): (r: Parsed) {
    if bytes == [] then End
    else
      var tag := bytes[0];
      var n := if IsSmall(tag) then 2 else 4;
      if |bytes| < 1 + n then Bad
      else
        var len := ParseLen(tag, bytes[1..1 + n]);
        if len < 0 || |bytes| < 1 + n + len then Bad
        else Got(Chunk(tag, bytes[1 + n..1 + n + len]), bytes[1 + n + len..])
  }

  /** Up to `room` chunks, with nothing behind them. */
  function ParseChunks(bytes: seq<Byte>, room: nat): (r: Option<seq<Chunk>>) {
    if room == 0 then (if bytes == [] then Some([]) else None)
    else
      match ParseChunk(bytes)
      case End => Some([])
      case Bad => None
      case Got(ch, rest) =>
        match ParseChunks(rest, room - 1)
        case None => None
        case Some(chunks) => Some([ch] + chunks)
  }

  function ParseFile(bytes: seq<Byte>): (r: Option<seq<Chunk>>) {
    if HEADER <= bytes then ParseChunks(bytes[|HEADER|..], MAXCHUNKS) else None
  }

  function FileOf(chunks: seq<Chunk>): (r: seq<Byte>) {
    HEADER + SerializeAll(Canonical(chunks))
  }

  /** The chunks that bitfile_add_chunk lets in. */
  predicate Storable(ch: Chunk) {
    |ch.body| < INT_LIMIT && (IsSmall(ch.tag) ==> |ch.body| <= 0xFFFF)
  }

  predicate AllStorable(chunks: seq<Chunk>) {
    forall i | 0 <= i < |chunks| :: Storable(chunks[i])
  }

  lemma NextByte(n: nat, m: nat)
    requires m == 0x100 || m == 0x1_0000
    ensures n / m / 0x100 == n / (m * 0x100)
    ensures n / m == 0x100 * (n / m / 0x100) + n / m % 0x100
  {
  }

  lemma FourBytes(n: nat)
    requires n < 2 * INT_LIMIT
    ensures n == (n / 0x100_0000 % 0x100) * 0x100_0000 + (n / 0x1_0000 % 0x100) * 0x1_0000 +
                 (n / 0x100 % 0x100) * 0x100 + n % 0x100
  {
    NextByte(n, 0x100);
    NextByte(n, 0x1_0000);
    assert n / 0x100_0000 % 0x100 == n / 0x100_0000;
  }

  lemma LenRoundTrip(tag: Byte, len: nat)
    requires len < INT_LIMIT && (IsSmall(tag) ==> len <= 0xFFFF)
    ensures ParseLen(tag, LenBytes(tag, len)) == len
  {
    if IsSmall(tag) {
      assert len == 0x100 * (len / 0x100) + len % 0x100;
    } else {
      FourBytes(len);
    }
  }

  lemma ParseSerialized(ch: Chunk, rest: seq<Byte>)
    requires Storable(ch)
    ensures ParseChunk(Serialize(ch) + rest) == Got(ch, rest)
  {
    var bytes := Serialize(ch) + rest;
    var n := if IsSmall(ch.tag) then 2 else 4;
    LenRoundTrip(ch.tag, |ch.body|);
    assert bytes[1..1 + n] == LenBytes(ch.tag, |ch.body|);
    assert bytes[1 + n..1 + n + |ch.body|] == ch.body;
    assert bytes[1 + n + |ch.body|..] == rest;
  }

  lemma ParseFirst(first: Chunk, tail: seq<Byte>, room: nat)
    requires Storable(first) && room > 0
    ensures ParseChunks(Serialize(first) + tail, room) == Prepend([first], ParseChunks(tail, room - 1))
  {
    ParseSerialized(first, tail);
  }

  lemma SerializeHead(chunks: seq<Chunk>)
    requires chunks != [] && AllStorable(chunks)
    ensures Storable(chunks[0]) && AllStorable(chunks[1..])
    ensures SerializeAll(chunks) == Serialize(chunks[0]) + SerializeAll(chunks[1..])
  {
  }

  lemma PrependSome(chunks: seq<Chunk>)
    requires chunks != []
    ensures Prepend([chunks[0]], Some(chunks[1..])) == Some(chunks)
  {
    assert [chunks[0]] + chunks[1..] == chunks;
  }

  lemma ParseNothing(room: nat)
    ensures SerializeAll([]) == [] && ParseChunks([], room) == Some([])
  {
  }

  lemma {:induction false} ParseAllSerialized(chunks: seq<Chunk>, room: nat)
    requires |chunks| <= room && AllStorable(chunks)
    ensures ParseChunks(SerializeAll(chunks), room) == Some(chunks)
    decreases |chunks|
  {
    ParseNothing(room);
    hide ParseChunk, ParseChunks, Serialize, SerializeAll, Storable, AllStorable, Prepend;
    if chunks != [] {
      var first, tail := chunks[0], chunks[1..];
      SerializeHead(chunks);
      ParseFirst(first, SerializeAll(tail), room);
      ParseAllSerialized(tail, room - 1);
      PrependSome(chunks);
    }
  }

  lemma {:induction false} FirstsStorable(chunks: seq<Chunk>, tags: seq<Byte>)
    requires AllStorable(chunks)
    ensures AllStorable(Firsts(chunks, tags))
  {
    if tags != [] {
      FirstsStorable(chunks, tags[1..]);
      NthFound(chunks, tags[0], 0);
    }
  }

  lemma {:induction false} OthersStorable(chunks: seq<Chunk>)
    requires AllStorable(chunks)
    ensures AllStorable(Others(chunks))
  {
    if chunks != [] {
      OthersStorable(chunks[1..]);
    }
  }

  lemma {:induction false} FirstsLength(chunks: seq<Chunk>, tags: seq<Byte>)
    requires chunks != [] && Distinct(tags)
    ensures |Firsts(chunks, tags)| <= |Firsts(chunks[1..], tags)| + if chunks[0].tag in tags then 1 else 0
  {
    if tags != [] {
      FirstsLength(chunks, tags[1..]);
    }
  }

  lemma {:induction false} FirstsOfNone(tags: seq<Byte>)
    ensures Firsts([], tags) == []
  {
    if tags != [] {
      FirstsOfNone(tags[1..]);
    }
  }

  lemma {:induction false} CanonicalLength(chunks: seq<Chunk>)
    ensures |Canonical(chunks)| <= |chunks|
  {
    if chunks == [] {
      FirstsOfNone(XILINX);
    } else {
      CanonicalLength(chunks[1..]);
      FirstsLength(chunks, XILINX);
    }
  }

  /** Reading back what was written gives the chunks in canonical order, for every
      bitfile that bitfile_add_chunk can build. */
  lemma WriteThenRead(chunks: seq<Chunk>)
    requires |chunks| < MAXCHUNKS && AllStorable(chunks)
    ensures ParseFile(FileOf(chunks)) == Some(Canonical(chunks))
  {
    FirstsStorable(chunks, XILINX);
    OthersStorable(chunks);
    CanonicalLength(chunks);
    ParseAllSerialized(Canonical(chunks), MAXCHUNKS);
    assert FileOf(chunks)[|HEADER|..] == SerializeAll(Canonical(chunks));
  }

  // --- the file, byte by byte -------------------------------------------------

  /** One tag, a big-endian length of two bytes for the tags 'a' to 'd' and zero and of four
      for all others, and the body. */
  lemma SerializedBytes(ch: Chunk)
    requires Storable(ch)
    ensures var b, n := Serialize(ch), |ch.body|;
            && |b| >= 3 && b[0] == ch.tag
            && if ch.tag in {0, 0x61, 0x62, 0x63, 0x64} then
                 256 * (b[1] as int) + b[2] == n && b[3..] == ch.body
               else
                 |b| >= 5 && 16777216 * (b[1] as int) + 65536 * (b[2] as int) + 256 * (b[3] as int) + b[4] == n && b[5..] == ch.body
  {
    LenRoundTrip(ch.tag, |ch.body|);
  }

  lemma BytesOfFour(a: Byte, b: Byte, c: Byte, d: Byte)
    ensures var u := 0x100_0000 * a + 0x1_0000 * b + 0x100 * c + d;
            u / 0x100_0000 % 0x100 == a && u / 0x1_0000 % 0x100 == b && u / 0x100 % 0x100 == c && u % 0x100 == d
  {
    var u: nat := 0x100_0000 * a + 0x1_0000 * b + 0x100 * c + d;
    assert u / 0x100 == 0x1_0000 * a + 0x100 * b + c;
    assert u / 0x1_0000 == 0x100 * a + b;
    assert u / 0x100_0000 == a;
  }

  /** A length read is written as it was. */
  lemma LenBytesParsed(tag: Byte, b: seq<Byte>)
    requires |b| == (if IsSmall(tag) then 2 else 4) && ParseLen(tag, b) >= 0
    ensures LenBytes(tag, ParseLen(tag, b)) == b
    ensures ParseLen(tag, b) < INT_LIMIT && (IsSmall(tag) ==> ParseLen(tag, b) <= 0xFFFF)
  {
    if IsSmall(tag) {
      BytesOfFour(0, 0, b[0], b[1]);
    } else {
      BytesOfFour(b[0], b[1], b[2], b[3]);
    }
  }

  lemma ParseChunkInverse(bytes: seq<Byte>)
    ensures var p := ParseChunk(bytes);
            (p.End? <==> bytes == []) && (p.Got? ==> Storable(p.chunk) && bytes == Serialize(p.chunk) + p.rest)
  {
    if ParseChunk(bytes).Got? {
      var tag := bytes[0];
      var n := if IsSmall(tag) then 2 else 4;
      var lenbuf := bytes[1..1 + n];
      var len := ParseLen(tag, lenbuf);
      LenBytesParsed(tag, lenbuf);
      assert bytes == [tag] + lenbuf + bytes[1 + n..1 + n + len] + bytes[1 + n + len..];
    }
  }

  lemma ParseChunksFirst(bytes: seq<Byte>, room: nat)
    ensures ParseChunks(bytes, room) == Some([]) ==> bytes == []
    ensures ParseChunks(bytes, room).Some? && bytes != [] ==>
              var p, cs := ParseChunk(bytes), ParseChunks(bytes, room).value;
              && room > 0 && p.Got? && cs != [] && cs[0] == p.chunk && ParseChunks(p.rest, room - 1) == Some(cs[1..])
    ensures ParseChunks([], room) == Some([])
  {
    ParseChunkInverse(bytes);
    ParseChunkInverse([]);
    hide ParseChunk;
  }

  lemma {:induction false} ParseChunksInverse(bytes: seq<Byte>, room: nat)
    ensures ParseChunks(bytes, room).Some? ==>
              var cs := ParseChunks(bytes, room).value;
              |cs| <= room && AllStorable(cs) && SerializeAll(cs) == bytes
    decreases room
  {
    hide ParseChunks, ParseChunk, Serialize, Storable;
    ParseChunksFirst(bytes, room);
    if ParseChunks(bytes, room).Some? && bytes != [] {
      ParseChunkInverse(bytes);
      ParseChunksInverse(ParseChunk(bytes).rest, room - 1);
    }
  }

  /** A file is read if and only if it is the header followed by at most 50 chunks, each
      no longer than its length field can say, and then what is read is those chunks. */
  lemma ReadExactly(bytes: seq<Byte>, chunks: seq<Chunk>)
    ensures ParseFile(bytes) == Some(chunks) <==>
            |chunks| <= 50 && AllStorable(chunks) &&
            bytes == [0x00, 0x09, 0x0f, 0xf0, 0x0f, 0xf0, 0x0f, 0xf0, 0x0f, 0xf0, 0x00, 0x00, 0x01] + SerializeAll(chunks)
  {
    if HEADER <= bytes {
      assert bytes == HEADER + bytes[|HEADER|..];
      ParseChunksInverse(bytes[|HEADER|..], MAXCHUNKS);
    }
    if bytes == HEADER + SerializeAll(chunks) {
      assert bytes[|HEADER|..] == SerializeAll(chunks);
      if |chunks| <= 50 && AllStorable(chunks) {
        ParseAllSerialized(chunks, MAXCHUNKS);
      }
    }
  }

  // --- whole programs ---------------------------------------------------------

  datatype AddCall = AddCall(tag: Byte, data: seq<Byte>)

  /** bitfile_add_chunk: the return code 0 or -1 and the chunks afterwards. */
  function AddChunk(chunks: seq<Chunk>, call: AddCall): (r: (int, seq<Chunk>)) {
    if IsSmall(call.tag) && |call.data| > 0xFFFF then (-1, chunks)
    else if |chunks| >= MAXCHUNKS - 1 then (-1, chunks)
    else (0, chunks + [Chunk(call.tag, call.data)])
  }

  /** A new bitfile after a sequence of calls, failed ones included. */
  function Built(calls: seq<AddCall>): (r: seq<Chunk>) {
    if calls == [] then [] else AddChunk(Built(calls[..|calls| - 1]), calls[|calls| - 1]).1
  }

  /** A chunk with a two-byte length that its length does not fit in. */
  predicate TooLong(call: AddCall) {
    call.tag in {0, 0x61, 0x62, 0x63, 0x64} && |call.data| > 65535
  }

  /** A chunk is refused if and only if it is too long or 49 chunks are there already;
      otherwise it is stored behind them. */
  lemma AddStores(chunks: seq<Chunk>, call: AddCall)
    ensures var (rv, now) := AddChunk(chunks, call);
            if TooLong(call) || |chunks| >= 49 then rv == -1 && now == chunks
            else rv == 0 && |now| == |chunks| + 1 && now[..|chunks|] == chunks &&
                 now[|chunks|].tag == call.tag && now[|chunks|].body == call.data
  {
  }

  /** The chunks of the calls that are not too long, in the order of the calls. */
  ghost function Fitting(calls: seq<AddCall>): (r: seq<Chunk>) {
    if calls == [] then []
    else
      var last := calls[|calls| - 1];
      Fitting(calls[..|calls| - 1]) + if TooLong(last) then [] else [Chunk(last.tag, last.data)]
  }

  /** The first 49 of them, or all if they are fewer. */
  ghost function Accepted(calls: seq<AddCall>): (r: seq<Chunk>) {
    if |Fitting(calls)| <= 49 then Fitting(calls) else Fitting(calls)[..49]
  }

  lemma {:induction false} BuiltIsAccepted(calls: seq<AddCall>)
    ensures Built(calls) == Accepted(calls)
  {
    if calls != [] {
      BuiltIsAccepted(calls[..|calls| - 1]);
    }
  }

  /** Up to 49 calls with nothing too long are all stored, each as it was given. */
  lemma {:induction false} BuiltStoresAll(calls: seq<AddCall>)
    requires |calls| <= 49 && forall i | 0 <= i < |calls| :: !TooLong(calls[i])
    ensures |Built(calls)| == |calls|
    ensures forall i | 0 <= i < |calls| :: Built(calls)[i] == Chunk(calls[i].tag, calls[i].data)
  {
    if calls != [] {
      BuiltStoresAll(calls[..|calls| - 1]);
    }
  }

  lemma {:induction false} BuiltStorable(calls: seq<AddCall>)
    requires forall i | 0 <= i < |calls| :: |calls[i].data| < INT_LIMIT
    ensures |Built(calls)| < MAXCHUNKS && AllStorable(Built(calls))
  {
    if calls != [] {
      BuiltStorable(calls[..|calls| - 1]);
    }
  }

  /** Whatever is added, the file can be written and read again; a second write is byte
      for byte the first; and all lookups give what the accepted calls have added exactly
      when no accepted tag is zero and no Xilinx tag was accepted twice. */
  lemma {:induction false} BitfileRoundTrip(calls: seq<AddCall>)
    requires forall i | 0 <= i < |calls| :: |calls[i].data| < INT_LIMIT
    ensures var added := Accepted(calls);
            var back := ParseFile(FileOf(Built(calls)));
            && back.Some?
            && FileOf(back.value) == FileOf(Built(calls))
            && Others(back.value) == Others(added)
            && (SameLookups(back.value, added) <==> RoundTrips(added))
  {
    BuiltStorable(calls);
    BuiltIsAccepted(calls);
    hide Built, Accepted;
    WriteThenRead(Built(calls));
    CanonicalTwice(Built(calls));
    CanonicalKeepsLookups(Built(calls));
  }

  // --- the program ------------------------------------------------------------

  /** An open file: its bytes and the read position. */
  class File {
    var bytes: seq<Byte>
    var pos: nat

    ghost predicate Valid()
      reads this
    {
      pos <= |bytes|
    }

    ghost function Unread(): (r: seq<Byte>)
      requires Valid()
      reads this
    {
      bytes[pos..]
    }

    constructor (content: seq<Byte>)
      ensures Valid() && bytes == content && pos == 0
    {
      bytes, pos := content, 0;
    }

    /** read(2): as many bytes as asked for, fewer only at the end of the file. */
    method Read(n: nat) returns (got: seq<Byte>)
      requires Valid()
      modifies this
      ensures Valid() && bytes == old(bytes)
      ensures got == old(Unread())[..if n <= |old(Unread())| then n else |old(Unread())|]
      ensures Unread() == old(Unread())[|got|..]
    {
      var k := if n <= |bytes| - pos then n else |bytes| - pos;
      got := bytes[pos..pos + k];
      pos := pos + k;
    }

    method Write(data: seq<Byte>)
      requires Valid()
      modifies this
      ensures Valid() && bytes == old(bytes) + data
    {
      bytes := bytes + data;
    }
  }

  class BitfileStruct {
    const chunks: array<Chunk>
    var numChunks: nat

    ghost predicate Valid()
      reads this
    {
      chunks.Length == MAXCHUNKS && numChunks <= MAXCHUNKS
    }

    ghost function Contents(): (r: seq<Chunk>)
      requires Valid()
      reads this, chunks
    {
      chunks[..numChunks]
    }

    constructor ()
      ensures Valid() && Contents() == [] && fresh(chunks)
    {
      chunks := new Chunk[MAXCHUNKS](_ => Chunk(0, []));
      numChunks := 0;
    }

    method FindChunk(tag: Byte, n0: int) returns (ch: Option<Chunk>)
      requires Valid()
      ensures ch == Nth(Contents(), tag, n0)
    {
      var n := n0;
      var i := 0;
      while i < numChunks
        invariant i <= numChunks
        invariant Nth(Contents(), tag, n0) == Nth(Contents()[i..], tag, n)
      {
        assert Contents()[i..][0] == chunks[i] && Contents()[i..][1..] == Contents()[i + 1..];
        if chunks[i].tag == tag {
          if n == 0 {
            return Some(chunks[i]);
          }
          n := n - 1;
        }
        i := i + 1;
      }
      return None;
    }

    method Add(tag: Byte, data: seq<Byte>) returns (rv: int)
      requires Valid() && |data| < INT_LIMIT
      modifies this, chunks
      ensures Valid() && (rv, Contents()) == AddChunk(old(Contents()), AddCall(tag, data))
    {
      if IsSmall(tag) && |data| > 0xFFFF {
        return -1;
      }
      if numChunks >= MAXCHUNKS - 1 {
        return -1;
      }
      Push(Chunk(tag, data));
      return 0;
    }

    method Push(ch: Chunk)
      requires Valid() && numChunks < MAXCHUNKS
      modifies this, chunks
      ensures Valid() && numChunks == old(numChunks) + 1 && Contents() == old(Contents()) + [ch]
    {
      chunks[numChunks] := ch;
      numChunks := numChunks + 1;
    }

    method WriteFile(fd: File)
      requires Valid() && fd.Valid() && fd.bytes == []
      modifies fd
      ensures fd.Valid() && fd.bytes == FileOf(Contents())
    {
      fd.Write(HEADER);
      assert fd.bytes == HEADER;
      WriteChunks(fd, XILINX);
    }

    method WriteChunks(fd: File, tags: seq<Byte>)
      requires Valid() && fd.Valid()
      modifies fd
      ensures fd.Valid() && fd.bytes == old(fd.bytes) + SerializeAll(Ordered(Contents(), tags))
    {
      ghost var start, c := fd.bytes, Contents();
      SerializeAppend(Firsts(c, tags), Others(c));
      Associative(start, SerializeAll(Firsts(c, tags)), SerializeAll(Others(c)));
      WriteFirsts(fd, tags);
      assert Contents() == c;
      WriteOthers(fd);
    }

    /** The first loop of bitfile_write: for each tag in preferred order, its first chunk. */
    method WriteFirsts(fd: File, tags: seq<Byte>)
      requires Valid() && fd.Valid()
      modifies fd
      ensures fd.Valid() && fd.bytes == old(fd.bytes) + SerializeAll(Firsts(Contents(), tags))
    {
      ghost var c := Contents();
      ghost var todo := SerializeAll(Firsts(c, tags));
      ghost var target := fd.bytes + todo;
      var cp := 0;
      assert tags[0..] == tags;
      while cp < |tags|
        invariant 0 <= cp <= |tags| && fd.Valid() && Contents() == c
        invariant todo == SerializeAll(Firsts(c, tags[cp..]))
        invariant fd.bytes + todo == target
      {
        FirstsStep(c, tags, cp);
        var ch := FindChunk(tags[cp], 0);
        todo := SerializeAll(Firsts(c, tags[cp + 1..]));
        if ch.Some? {
          Associative(fd.bytes, Serialize(ch.value), todo);
          WriteChunk(fd, ch.value);
        }
        cp := cp + 1;
      }
      assert todo == [];
    }

    /** The second loop of bitfile_write: the chunks that are not Xilinx ones. */
    method WriteOthers(fd: File)
      requires Valid() && fd.Valid()
      modifies fd
      ensures fd.Valid() && fd.bytes == old(fd.bytes) + SerializeAll(Others(Contents()))
    {
      ghost var c := Contents();
      ghost var todo := SerializeAll(Others(c));
      ghost var target := fd.bytes + todo;
      var n := 0;
      assert c[0..] == c;
      while n < numChunks
        invariant 0 <= n <= numChunks == |c| && fd.Valid() && Contents() == c
        invariant todo == SerializeAll(Others(c[n..]))
        invariant fd.bytes + todo == target
      {
        OthersStep(c, n);
        assert c[n] == chunks[n];
        todo := SerializeAll(Others(c[n + 1..]));
        if !IsXilinx(chunks[n].tag) {
          Associative(fd.bytes, Serialize(chunks[n]), todo);
          WriteChunk(fd, chunks[n]);
        }
        n := n + 1;
      }
      assert todo == [];
    }

    method WriteChunk(fd: File, ch: Chunk)
      requires fd.Valid()
      modifies fd
      ensures fd.Valid() && fd.bytes == old(fd.bytes) + Serialize(ch)
    {
      fd.Write([ch.tag] + LenBytes(ch.tag, |ch.body|));
      fd.Write(ch.body);
    }

    /** 1 at the end of the file, -1 on a defect, 0 with a chunk otherwise. */
    method ReadChunk(fd: File) returns (rv: int, ch: Chunk)
      requires fd.Valid()
      modifies fd
      ensures fd.Valid()
      ensures match ParseChunk(old(fd.Unread()))
              case End => rv == 1 && fd.Unread() == []
              case Bad => rv == -1
              case Got(c, rest) => rv == 0 && ch == c && fd.Unread() == rest
    {
      ghost var input := fd.Unread();
      ch := Chunk(0, []);
      var t := fd.Read(1);
      if |t| != 1 {
        return 1, ch;
      }
      var lenLen := if IsSmall(t[0]) then 2 else 4;
      SliceOfSlice(input, 1, lenLen);
      var lenbuf := fd.Read(lenLen);
      if |lenbuf| != lenLen {
        return -1, ch;
      }
      var len := ParseLen(t[0], lenbuf);
      if len < 0 {
        return -1, ch;  // malloc cannot supply a negative size
      }
      SliceOfSlice(input, 1 + lenLen, len);
      var body := fd.Read(len);
      if |body| != len {
        return -1, ch;
      }
      return 0, Chunk(t[0], body);
    }

    /** bitfile_read on a fresh structure; false stands for the NULL result. */
    method ReadFile(fd: File) returns (ok: bool)
      requires Valid() && numChunks == 0 && fd.Valid() && fd.pos == 0
      modifies this, chunks, fd
      ensures Valid() && ok == ParseFile(old(fd.bytes)).Some?
      ensures ok ==> Contents() == ParseFile(old(fd.bytes)).value
    {
      var header := fd.Read(|HEADER|);
      if header != HEADER {
        return false;
      }
      ok := ReadChunks(fd);
    }

    method ReadChunks(fd: File) returns (ok: bool)
      requires Valid() && numChunks == 0 && fd.Valid()
      modifies this, chunks, fd
      ensures Valid() && ok == ParseChunks(old(fd.Unread()), MAXCHUNKS).Some?
      ensures ok ==> Contents() == ParseChunks(old(fd.Unread()), MAXCHUNKS).value
    {
      hide ParseChunk, ParseChunks, Prepend;
      ghost var all := ParseChunks(fd.Unread(), MAXCHUNKS);
      PrependNothing(all);
      while numChunks < MAXCHUNKS
        invariant Valid() && fd.Valid()
        invariant all == Prepend(Contents(), ParseChunks(fd.Unread(), MAXCHUNKS - numChunks))
        decreases MAXCHUNKS - numChunks
      {
        ReadStep(Contents(), fd.Unread(), MAXCHUNKS - numChunks);
        var rv, ch := ReadChunk(fd);
        if rv < 0 {
          return false;
        }
        if rv > 0 {
          break;
        }
        Push(ch);
      }
      if numChunks == MAXCHUNKS {
        ReadEnd(Contents(), fd.Unread());
      }
      var c := fd.Read(1);
      return |c| != 1;
    }
  }

  lemma ReadEnd(before: seq<Chunk>, bytes: seq<Byte>)
    ensures Prepend(before, ParseChunks(bytes, 0)) == if bytes == [] then Some(before) else None
  {
    assert before + [] == before;
  }

  /** What has been read, with the rest of the file, one chunk further on. */
  lemma ReadStep(before: seq<Chunk>, bytes: seq<Byte>, room: nat)
    requires room > 0
    ensures Prepend(before, ParseChunks(bytes, room)) ==
            match ParseChunk(bytes)
            case End => Some(before)
            case Bad => None
            case Got(ch, rest) => Prepend(before + [ch], ParseChunks(rest, room - 1))
  {
    ParseStep(bytes, room);
    assert before + [] == before;
    hide ParseChunk, ParseChunks;
    match ParseChunk(bytes)
    case End =>
    case Bad =>
    case Got(ch, rest) => PrependStep(before, ch, ParseChunks(rest, room - 1));
  }

  lemma ParseStep(bytes: seq<Byte>, room: nat)
    requires room > 0
    ensures ParseChunks(bytes, room) ==
            match ParseChunk(bytes)
            case End => Some([])
            case Bad => None
            case Got(ch, rest) => Prepend([ch], ParseChunks(rest, room - 1))
  {
  }

  ghost function Prepend(a: seq<Chunk>, b: Option<seq<Chunk>>): (r: Option<seq<Chunk>>) {
    if b.None? then None else Some(a + b.value)
  }

  lemma PrependNothing(b: Option<seq<Chunk>>)
    ensures Prepend([], b) == b
  {
    if b.Some? {
      assert [] + b.value == b.value;
    }
  }

  lemma SliceOfSlice(s: seq<Byte>, i: nat, n: nat)
    requires i <= |s|
    ensures i + n <= |s| ==> s[i..][..n] == s[i..i + n] && s[i..][n..] == s[i + n..]
  {
  }

  lemma PrependStep(a: seq<Chunk>, ch: Chunk, b: Option<seq<Chunk>>)
    ensures Prepend(a, Prepend([ch], b)) == Prepend(a + [ch], b)
  {
    if b.Some? {
      assert a + ([ch] + b.value) == a + [ch] + b.value;
    }
  }

  lemma {:induction false} SerializeAppend(a: seq<Chunk>, b: seq<Chunk>)
    ensures SerializeAll(a + b) == SerializeAll(a) + SerializeAll(b)
  {
    if a == [] {
      assert a + b == b;
    } else {
      assert (a + b)[1..] == a[1..] + b;
      SerializeAppend(a[1..], b);
    }
  }

  lemma FirstsStep(chunks: seq<Chunk>, tags: seq<Byte>, i: nat)
    requires i < |tags|
    ensures var rest := SerializeAll(Firsts(chunks, tags[i + 1..]));
            SerializeAll(Firsts(chunks, tags[i..])) ==
            match Nth(chunks, tags[i], 0) case None => rest case Some(ch) => Serialize(ch) + rest
  {
    var rest := Firsts(chunks, tags[i + 1..]);
    assert tags[i..][1..] == tags[i + 1..];
    match Nth(chunks, tags[i], 0)
    case None => assert [] + rest == rest;
    case Some(ch) => assert ([ch] + rest)[1..] == rest;
  }

  lemma OthersStep(chunks: seq<Chunk>, i: nat)
    requires i < |chunks|
    ensures var rest := SerializeAll(Others(chunks[i + 1..]));
            SerializeAll(Others(chunks[i..])) ==
            if IsXilinx(chunks[i].tag) then rest else Serialize(chunks[i]) + rest
  {
    var rest := Others(chunks[i + 1..]);
    assert chunks[i..][1..] == chunks[i + 1..];
    if IsXilinx(chunks[i].tag) {
      assert [] + rest == rest;
    } else {
      assert ([chunks[i]] + rest)[1..] == rest;
    }
  }
}
