/** The bytes of the delta file (mvcc.rs `persist`, `replay_deltas`): one line for each delta, with
    its checksum in front, and what is read of a file that ends inside a line. */
module DeltaFrames {
  import opened Basics

  type Bytes = seq<byte>

  const NEWLINE: byte := 10
  const SPACE: byte := 32
  const PLUS: byte := 43
  const MODULUS: nat := 0x1_0000_0000_0000_0000
  const PRIME: nat := 0x100_0000_01b3

  // ---- The checksum ----

  /** Exclusive or of the lowest `bits` bits. */
  function Xor(x: nat, y: nat, bits: nat): nat {
    if bits == 0 then 0 else (x + y) % 2 + 2 * Xor(x / 2, y / 2, bits - 1)
  }

  function Flipped(v: nat, b: byte): nat {
    v / 256 * 256 + Xor(v % 256, b, 8)
  }

  /** One step of the checksum: the byte changes the low eight bits, then a product that wraps. */
  function Mixed(v: nat, b: byte): (m: nat)
    ensures m < MODULUS
  {
    Flipped(v, b) * PRIME % MODULUS
  }

  function Checksum(bytes: Bytes): (m: nat)
    ensures m < MODULUS
  {
    if bytes == [] then 0xcbf2_9ce4_8422_2325
    else Mixed(Checksum(bytes[..|bytes| - 1]), bytes[|bytes| - 1])
  }

  // ---- Sixteen hexadecimal digits ----

  function HexDigit(n: nat): byte
    requires n < 16
  {
    if n < 10 then 48 + n else 87 + n
  }

  /** Digits of either case are read. */
  function DigitValue(b: byte): Option<nat> {
    if 48 <= b <= 57 then Some(b - 48)
    else if 97 <= b <= 102 then Some(b - 87)
    else if 65 <= b <= 70 then Some(b - 55)
    else None
  }

  function Hex(v: nat, width: nat): (s: Bytes)
    ensures |s| == width
  {
    if width == 0 then [] else Hex(v / 16, width - 1) + [HexDigit(v % 16)]
  }

  function HexValue(s: Bytes): Option<nat> {
    if s == [] then Some(0)
    else
      var high, low := HexValue(s[..|s| - 1]), DigitValue(s[|s| - 1]);
      if high.None? || low.None? then None else Some(16 * high.value + low.value)
  }

  /** `u64::from_str_radix` with base 16, on at most sixteen characters. */
  function ParseHex(s: Bytes): Option<nat> {
    var digits := if s != [] && s[0] == PLUS then s[1..] else s;
    if digits == [] then None else HexValue(digits)
  }

  function Pow16(n: nat): nat {
    if n == 0 then 1 else 16 * Pow16(n - 1)
  }

  lemma {:induction false} HexRoundTrip(v: nat, width: nat)
    requires v < Pow16(width)
    ensures HexValue(Hex(v, width)) == Some(v)
    ensures forall i | 0 <= i < width :: DigitValue(Hex(v, width)[i]).Some?
  {
    if width > 0 {
      HexRoundTrip(v / 16, width - 1);
      Snoc(Hex(v / 16, width - 1), HexDigit(v % 16));
    }
  }

  // ---- Lines ----

  predicate NoNewline(s: Bytes) {
    forall i | 0 <= i < |s| :: s[i] != NEWLINE
  }

  /** A line: its only newline is its last byte. */
  predicate IsLine(s: Bytes) {
    s != [] && s[|s| - 1] == NEWLINE && NoNewline(s[..|s| - 1])
  }

  function FirstNewline(s: Bytes): (k: nat)
    ensures k <= |s| && NoNewline(s[..k]) && (k < |s| ==> s[k] == NEWLINE)
  {
    if s == [] || s[0] == NEWLINE then 0
    else
      assert forall i | 0 < i < |s| :: s[i] == s[1..][i - 1];
      1 + FirstNewline(s[1..])
  }

  predicate Ends(s: Bytes) {
    s != [] && s[|s| - 1] == NEWLINE
  }

  /** `split_inclusive` at newlines: only the last piece can be without one. */
  function Pieces(s: Bytes): (ps: seq<Bytes>)
    ensures Flat(ps) == s
    ensures forall i | 0 <= i < |ps| - 1 :: Ends(ps[i])
    decreases |s|
  {
    var k := FirstNewline(s);
    if s == [] then []
    else if k == |s| then [s]
    else [s[..k + 1]] + Pieces(s[k + 1..])
  }

  function Flat(lines: seq<Bytes>): Bytes {
    if lines == [] then [] else lines[0] + Flat(lines[1..])
  }

  lemma {:induction false} FlatSnoc(lines: seq<Bytes>, line: Bytes)
    ensures Flat(lines + [line]) == Flat(lines) + line
    decreases |lines|
  {
    if lines == [] {
      assert (lines + [line])[1..] == [] && line + [] == line && [] + line == line;
    } else {
      assert (lines + [line])[1..] == lines[1..] + [line];
      FlatSnoc(lines[1..], line);
    }
  }

  lemma {:induction false} FirstNewlineIs(line: Bytes, rest: Bytes)
    requires IsLine(line)
    ensures FirstNewline(line + rest) == |line| - 1
    decreases |line|
  {
    if |line| > 1 {
      assert line[..|line| - 1][0] != NEWLINE;
      assert line[1..][..|line| - 2] == line[..|line| - 1][1..];
      assert (line + rest)[1..] == line[1..] + rest;
      FirstNewlineIs(line[1..], rest);
    }
  }

  lemma PiecesLine(line: Bytes, tail: Bytes)
    requires IsLine(line)
    ensures Pieces(line + tail) == [line] + Pieces(tail)
  {
    hide FirstNewline, NoNewline, Flat;
    FirstNewlineIs(line, tail);
    assert (line + tail)[..|line|] == line && (line + tail)[|line|..] == tail;
  }

  lemma PiecesRest(rest: Bytes)
    requires NoNewline(rest)
    ensures Pieces(rest) == if rest == [] then [] else [rest]
  {
    hide Flat;
    assert FirstNewline(rest) == |rest|;
  }

  /** Whole lines and an unterminated rest are split where they were put together. */
  lemma {:induction false} PiecesOf(lines: seq<Bytes>, rest: Bytes)
    requires (forall line <- lines :: IsLine(line)) && NoNewline(rest)
    ensures Pieces(Flat(lines) + rest) == lines + if rest == [] then [] else [rest]
    decreases |lines|
  {
    hide Pieces, IsLine, NoNewline;
    if lines == [] {
      assert Flat(lines) + rest == rest;
      PiecesRest(rest);
    } else {
      var line, tail := lines[0], Flat(lines[1..]) + rest;
      assert Flat(lines) + rest == line + tail;
      PiecesLine(line, tail);
      PiecesOf(lines[1..], rest);
      assert lines == [line] + lines[1..];
    }
  }

  // ---- Frames ----

  /** How a value is written and read as text (`serde_json`). */
  datatype Codec<!T> = Codec(write: T -> Bytes, read: Bytes -> Option<T>)

  /** Reading inverts writing, and the text of a value is on one line. */
  ghost predicate Faithful<T(!new)>(codec: Codec<T>) {
    forall x: T :: Reads(codec, x)
  }

  ghost predicate Reads<T>(codec: Codec<T>, x: T) {
    codec.read(codec.write(x)) == Some(x) && NoNewline(codec.write(x))
  }

  function Frame<T>(codec: Codec<T>, x: T): Bytes {
    Hex(Checksum(codec.write(x)), 16) + [SPACE] + codec.write(x) + [NEWLINE]
  }

  function Frames<T>(codec: Codec<T>, xs: seq<T>): (fs: seq<Bytes>)
    ensures |fs| == |xs| && forall i | 0 <= i < |xs| :: fs[i] == Frame(codec, xs[i])
  {
    seq(|xs|, i requires 0 <= i < |xs| => Frame(codec, xs[i]))
  }

  /** The file that holds the deltas `xs`. */
  function FileOf<T>(codec: Codec<T>, xs: seq<T>): Bytes {
    Flat(Frames(codec, xs))
  }

  /** One line of `replay_deltas`, up to its text. */
  function ReadFrame<T>(codec: Codec<T>, line: Bytes): Result<T> {
    if |line| < 18 then Err("invalid MVCC delta frame")
    else
      var body := line[17..|line| - 1];
      if line[16] != SPACE || ParseHex(line[..16]) != Some(Checksum(body)) then Err("invalid MVCC delta checksum")
      else if codec.read(body).None? then Err("invalid MVCC delta text")
      else Ok(codec.read(body).value)
  }

  lemma FrameParts<T>(codec: Codec<T>, x: T)
    ensures var f, body := Frame(codec, x), codec.write(x);
      && |f| == |body| + 18 && f[..16] == Hex(Checksum(body), 16) && f[16] == SPACE
      && f[17..|f| - 1] == body && f[|f| - 1] == NEWLINE
  {
  }

  lemma HexPlain(v: nat)
    requires v < MODULUS
    ensures ParseHex(Hex(v, 16)) == Some(v) && NoNewline(Hex(v, 16))
  {
    hide Hex, HexValue, Pow16;
    SixteenDigits();
    HexRoundTrip(v, 16);
    var s := Hex(v, 16);
    assert DigitValue(s[0]).Some?;
    forall i | 0 <= i < |s|
      ensures s[i] != NEWLINE
    {
      assert DigitValue(s[i]).Some?;
    }
  }

  lemma SixteenDigits()
    ensures Pow16(16) == MODULUS
  {
    assert Pow16(4) == 0x1_0000;
    assert Pow16(8) == 0x1_0000_0000;
    assert Pow16(12) == 0x1_0000_0000_0000;
  }

  /** A frame is one line, and reading it gives its value. */
  lemma FrameReads<T>(codec: Codec<T>, x: T)
    requires Reads(codec, x)
    ensures IsLine(Frame(codec, x)) && ReadFrame(codec, Frame(codec, x)) == Ok(x)
  {
    FrameParts(codec, x);
    HexPlain(Checksum(codec.write(x)));
    FrameLine(Frame(codec, x));
  }

  lemma FrameLine(f: Bytes)
    requires |f| >= 18 && NoNewline(f[..16]) && f[16] == SPACE && NoNewline(f[17..|f| - 1]) && f[|f| - 1] == NEWLINE
    ensures IsLine(f)
  {
    assert f[..|f| - 1] == f[..16] + [f[16]] + f[17..|f| - 1];
  }

  /** The lines of a file that end in a newline. */
  function WholeLines(s: Bytes): seq<Bytes> {
    var ps := Pieces(s);
    if ps != [] && !Ends(ps[|ps| - 1]) then ps[..|ps| - 1] else ps
  }

  /** A file that ends inside a frame: the whole lines are the frames before it, whatever part of
      the frame was written, and they are the bytes in front of it. */
  lemma TornFile<T(!new)>(codec: Codec<T>, xs: seq<T>, x: T, k: nat)
    requires Faithful(codec) && k < |Frame(codec, x)|
    ensures WholeLines(FileOf(codec, xs) + Frame(codec, x)[..k]) == Frames(codec, xs)
  {
    hide Frame, Frames, ReadFrame, Flat, IsLine, NoNewline;
    assert Reads(codec, x);
    FrameReads(codec, x);
    PartOfLine(Frame(codec, x), k);
    FramesAreLines(codec, xs);
    WholeOf(Frames(codec, xs), Frame(codec, x)[..k]);
  }

  lemma PartOfLine(f: Bytes, k: nat)
    requires IsLine(f) && k < |f|
    ensures NoNewline(f[..k])
  {
    assert forall i | 0 <= i < k :: f[..k][i] == f[..|f| - 1][i];
  }

  lemma WholeOf(lines: seq<Bytes>, rest: Bytes)
    requires (forall line <- lines :: IsLine(line)) && NoNewline(rest)
    ensures WholeLines(Flat(lines) + rest) == lines
  {
    hide Pieces, Flat;
    PiecesOf(lines, rest);
    var ps := Pieces(Flat(lines) + rest);
    if rest == [] {
      assert lines + [] == lines;
      assert lines != [] ==> lines[|lines| - 1] in lines;
    } else {
      Snoc(lines, rest);
    }
  }

  lemma FramesAreLines<T(!new)>(codec: Codec<T>, xs: seq<T>)
    requires Faithful(codec)
    ensures forall f <- Frames(codec, xs) :: IsLine(f)
  {
    forall f <- Frames(codec, xs)
      ensures IsLine(f)
    {
      var i :| 0 <= i < |xs| && Frames(codec, xs)[i] == f;
      assert Reads(codec, xs[i]);
      FrameReads(codec, xs[i]);
    }
  }

  lemma FileSnoc<T>(codec: Codec<T>, xs: seq<T>, x: T)
    ensures FileOf(codec, xs + [x]) == FileOf(codec, xs) + Frame(codec, x)
  {
    assert Frames(codec, xs + [x]) == Frames(codec, xs) + [Frame(codec, x)];
    FlatSnoc(Frames(codec, xs), Frame(codec, x));
  }

  // ---- Damage ----

  /** The inverse of the factor, modulo 2^64. */
  const INVERSE: nat := 0xce96_5057_aff6_957b

  lemma ProductInjective(v: nat, w: nat)
    requires v < MODULUS && w < MODULUS && v * PRIME % MODULUS == w * PRIME % MODULUS
    ensures v == w
  {
    var k := v * PRIME / MODULUS - w * PRIME / MODULUS;
    assert (v - w) * PRIME == k * MODULUS;
    assert (v - w) * PRIME * INVERSE == k * MODULUS * INVERSE;
    assert PRIME * INVERSE == 1 + 0xce_9650_590f * MODULUS;
    assert v - w == (k * INVERSE - (v - w) * 0xce_9650_590f) * MODULUS;
  }

  lemma {:induction false} XorBound(x: nat, y: nat, bits: nat)
    ensures Xor(x, y, bits) < Power2(bits)
  {
    if bits > 0 {
      XorBound(x / 2, y / 2, bits - 1);
    }
  }

  function Power2(n: nat): nat {
    if n == 0 then 1 else 2 * Power2(n - 1)
  }

  lemma LowBit(i: nat, p: nat, j: nat, q: nat)
    requires i < 2 && j < 2 && i + 2 * p == j + 2 * q
    ensures i == j && p == q
  {
  }

  lemma Parity(x: nat, b: nat, y: nat, c: nat)
    requires (x + b) % 2 == (y + c) % 2
    ensures b == c && x / 2 == y / 2 ==> x == y
  {
  }

  lemma {:induction false} XorInjective(x: nat, y: nat, b: nat, c: nat, bits: nat)
    requires x < Power2(bits) && y < Power2(bits) && b < Power2(bits) && c < Power2(bits)
    requires Xor(x, b, bits) == Xor(y, c, bits)
    ensures b == c ==> x == y
    ensures x == y ==> b == c
  {
    if bits > 0 {
      var p, q := Xor(x / 2, b / 2, bits - 1), Xor(y / 2, c / 2, bits - 1);
      assert (x + b) % 2 + 2 * p == (y + c) % 2 + 2 * q;
      LowBit((x + b) % 2, p, (y + c) % 2, q);
      XorInjective(x / 2, y / 2, b / 2, c / 2, bits - 1);
      Parity(x, b, y, c);
      Parity(b, x, c, y);
    }
  }

  lemma FlippedInjective(v: nat, w: nat, b: byte, c: byte)
    requires Flipped(v, b) == Flipped(w, c)
    ensures b == c ==> v == w
    ensures v == w ==> b == c
  {
    EightBits();
    XorBound(v % 256, b, 8);
    XorBound(w % 256, c, 8);
    SameParts(v / 256, Xor(v % 256, b, 8), w / 256, Xor(w % 256, c, 8));
    XorInjective(v % 256, w % 256, b, c, 8);
  }

  lemma SameParts(q: nat, x: nat, r: nat, y: nat)
    requires x < 256 && y < 256 && q * 256 + x == r * 256 + y
    ensures q == r && x == y
  {
  }

  lemma EightBits()
    ensures Power2(8) == 256
  {
    assert Power2(4) == 16;
  }

  lemma FlippedBound(v: nat, b: byte)
    requires v < MODULUS
    ensures Flipped(v, b) < MODULUS
  {
    hide Xor, Power2;
    EightBits();
    XorBound(v % 256, b, 8);
    PartsBound(v / 256, Xor(v % 256, b, 8));
  }

  lemma PartsBound(q: nat, x: nat)
    requires q < 0x100_0000_0000_0000 && x < 256
    ensures q * 256 + x < MODULUS
  {
  }

  lemma MixedInjective(v: nat, w: nat, b: byte, c: byte)
    requires v < MODULUS && w < MODULUS && Mixed(v, b) == Mixed(w, c)
    ensures b == c ==> v == w
    ensures v == w ==> b == c
  {
    hide Flipped;
    FlippedBound(v, b);
    FlippedBound(w, c);
    ProductInjective(Flipped(v, b), Flipped(w, c));
    FlippedInjective(v, w, b, c);
  }

  /** The checksum tells two texts of one length apart whenever they differ in a single byte. */
  lemma {:induction false} ChecksumDetects(a: Bytes, x: byte, y: byte, b: Bytes)
    requires x != y
    ensures Checksum(a + [x] + b) != Checksum(a + [y] + b)
    decreases |b|
  {
    if b == [] {
      Snoc(a, x);
      Snoc(a, y);
      assert a + [x] + b == a + [x] && a + [y] + b == a + [y];
      if Checksum(a + [x]) == Checksum(a + [y]) {
        MixedInjective(Checksum(a), Checksum(a), x, y);
      }
    } else {
      var c, last := b[..|b| - 1], b[|b| - 1];
      assert a + [x] + b == a + [x] + c + [last] && a + [y] + b == a + [y] + c + [last];
      Snoc(a + [x] + c, last);
      Snoc(a + [y] + c, last);
      ChecksumDetects(a, x, y, c);
      if Checksum(a + [x] + b) == Checksum(a + [y] + b) {
        MixedInjective(Checksum(a + [x] + c), Checksum(a + [y] + c), last, last);
      }
    }
  }

  /** A frame in which one byte of the text has changed is reported, not read as another value. */
  lemma DamageReported<T>(codec: Codec<T>, x: T, i: nat, y: byte)
    requires i < |codec.write(x)| && y != codec.write(x)[i]
    ensures ReadFrame(codec, Frame(codec, x)[17 + i := y]) == Err("invalid MVCC delta checksum")
  {
    var body, f := codec.write(x), Frame(codec, x);
    var f' := f[17 + i := y];
    FrameParts(codec, x);
    HexPlain(Checksum(body));
    assert f'[..16] == f[..16] && f'[17..|f| - 1] == body[i := y];
    Around(body, i);
    assert body[i := y] == body[..i] + [y] + body[i + 1..];
    ChecksumDetects(body[..i], body[i], y, body[i + 1..]);
  }
}
