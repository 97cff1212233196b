/** The base64 codec of the filesystem driver, crates/drivers/src/filesystem.rs,
    against the bit-level description of section 4 of RFC 4648. */
module Base64 {
  import opened Options
  import opened Bytes
  import opened Numbers

  // --- bits

  /** Bit `p` of `v`, counted from the least significant. */
  function BitAt(v: nat, p: nat): nat {
    if p == 0 then v % 2 else BitAt(v / 2, p - 1)
  }

  /** Bit `k` of the groups of `width` bits in `groups`, each group with its most
      significant bit first; zero past the end. */
  function Bit(groups: seq<nat>, width: nat, k: nat): nat
    requires width > 0
  {
    if k / width < |groups| then BitAt(groups[k / width], width - 1 - k % width) else 0
  }

  /** The value left when the low `m` bits are dropped. */
  function Drop(v: nat, m: nat): nat {
    if m == 0 then v else Drop(v / 2, m - 1)
  }

  lemma {:induction false} DropBits(v: nat, m: nat, p: nat)
    ensures BitAt(Drop(v, m), p) == BitAt(v, m + p)
  {
    if m > 0 {
      DropBits(v / 2, m - 1, p);
    }
  }

  lemma HalfMod(v: nat, half: nat)
    requires half > 0
    ensures (v % (2 * half)) / 2 == (v / 2) % half && (v % (2 * half)) % 2 == v % 2
  {
    var q, r := v / (2 * half), v % (2 * half);
    HalfParts(v, half * q, r) by {
      assert v == 2 * half * q + r;
    }
    ModOf(v / 2, half, q, r / 2);
  }

  lemma HalfParts(v: nat, p: nat, r: nat)
    requires v == 2 * p + r
    ensures v / 2 == p + r / 2 && v % 2 == r % 2
  {
  }

  lemma SmallMultiple(n: int, d: int)
    requires -n < n * d < n
    ensures d == 0
  {
    assert d >= 1 ==> n * d >= n;
    assert d <= -1 ==> n * d <= -n;
  }

  lemma ModOf(a: nat, n: nat, q: nat, r: nat)
    requires r < n && a == n * q + r
    ensures a % n == r
  {
    var d: int := a / n - q;
    assert n * d == r - a % n;
    SmallMultiple(n, d);
  }

  lemma {:induction false} ModBits(v: nat, w: nat, p: nat)
    requires p < w
    ensures BitAt(v % Pow2(w), p) == BitAt(v, p)
  {
    HalfMod(v, Pow2(w - 1));
    if p > 0 {
      ModBits(v / 2, w - 1, p - 1);
    }
  }

  lemma {:induction false} ZeroBit(p: nat)
    ensures BitAt(0, p) == 0
  {
    if p > 0 {
      ZeroBit(p - 1);
    }
  }

  /** Values of `w` bits with the same bits are the same. */
  lemma {:induction false} BitsDetermine(u: nat, v: nat, w: nat)
    requires u < Pow2(w) && v < Pow2(w)
    requires forall p: nat :: p < w ==> BitAt(u, p) == BitAt(v, p)
    ensures u == v
  {
    if w > 0 {
      assert BitAt(u, 0) == BitAt(v, 0);
      forall p: nat | p < w - 1 ensures BitAt(u / 2, p) == BitAt(v / 2, p) {
        assert BitAt(u, p + 1) == BitAt(v, p + 1);
      }
      BitsDetermine(u / 2, v / 2, w - 1);
    }
  }

  lemma Powers()
    ensures Pow2(6) == 64 && Pow2(8) == 256
  {
    assert Pow2(2) == 4;
    assert Pow2(4) == 16;
  }

  lemma DropFour(v: nat)
    ensures Drop(v, 2) == v / 4 && Drop(v, 4) == v / 16
  {
    assert Drop(v, 2) == Drop(v / 2, 1);
    assert Drop(v, 4) == Drop(v / 2, 3);
    assert Drop(v / 2, 3) == Drop(v / 2 / 2, 2);
    assert Drop(v / 2 / 2, 2) == Drop(v / 2 / 2 / 2, 1);
  }

  lemma {:induction false} DropSum(v: nat, a: nat, b: nat)
    ensures Drop(v, a + b) == Drop(Drop(v, a), b)
  {
    if a > 0 {
      DropSum(v / 2, a - 1, b);
    }
  }

  lemma DropEight(v: nat)
    ensures Drop(v, 6) == v / 64 && Drop(v, 8) == v / 256
  {
    DropFour(v);
    DropFour(v / 16);
    DropSum(v, 4, 2);
    DropSum(v, 4, 4);
  }

  lemma Drops(v: nat)
    ensures Drop(v, 6) == v / 64 && Drop(v, 8) == v / 256 && Drop(v, 12) == v / 4096
    ensures Drop(v, 16) == v / 65536 && Drop(v, 18) == v / 262144
  {
    DropEight(v);
    DropEight(v / 64);
    DropEight(v / 256);
    DropEight(v / 4096);
    DropSum(v, 6, 6);
    DropSum(v, 8, 8);
    DropSum(v, 12, 6);
  }

  /** The three bytes and the four sextets of a 24-bit number spell the same
      bits. */
  ghost function BytesOf(triple: nat): seq<nat> {
    [triple / 65536, triple / 256 % 256, triple % 256]
  }

  ghost function SextetsOf(triple: nat): seq<nat> {
    [triple / 262144, triple / 4096 % 64, triple / 64 % 64, triple % 64]
  }

  lemma BytesBit(triple: nat, k: nat)
    requires k < 24
    ensures Bit(BytesOf(triple), 8, k) == BitAt(triple, 23 - k)
  {
    hide BitAt, Drop, Pow2;
    Drops(triple);
    Powers();
    if k < 8 {
      DropBits(triple, 16, 7 - k);
    } else if k < 16 {
      ModBits(triple / 256, 8, 15 - k);
      DropBits(triple, 8, 15 - k);
    } else {
      ModBits(triple, 8, 23 - k);
    }
  }

  lemma SextetsBit(triple: nat, k: nat)
    requires k < 24
    ensures Bit(SextetsOf(triple), 6, k) == BitAt(triple, 23 - k)
  {
    hide BitAt, Drop, Pow2;
    Drops(triple);
    Powers();
    if k < 6 {
      DropBits(triple, 18, 5 - k);
    } else if k < 12 {
      ModBits(triple / 4096, 6, 11 - k);
      DropBits(triple, 12, 11 - k);
    } else if k < 18 {
      ModBits(triple / 64, 6, 17 - k);
      DropBits(triple, 6, 17 - k);
    } else {
      ModBits(triple, 6, 23 - k);
    }
  }

  ghost predicate SameBits(bytes: seq<nat>, sextets: seq<nat>, n: nat) {
    forall k: nat :: k < n ==> Bit(bytes, 8, k) == Bit(sextets, 6, k)
  }

  lemma TripleBits(triple: nat)
    ensures SameBits(BytesOf(triple), SextetsOf(triple), 24)
  {
    hide Bit, BitAt, BytesOf, SextetsOf;
    forall k: nat | k < 24 ensures Bit(BytesOf(triple), 8, k) == Bit(SextetsOf(triple), 6, k) {
      BytesBit(triple, k);
      SextetsBit(triple, k);
    }
  }

  lemma IndexBelow(k: nat, width: nat, n: nat)
    requires width > 0 && k < width * n
    ensures k / width < n
  {
    var q := k / width;
    assert width * q <= k;
    if q >= n {
      TimesMonotone(width, n, q);
    }
  }

  lemma TimesMonotone(width: nat, a: nat, b: nat)
    requires a <= b
    ensures width * a <= width * b
  {
  }

  lemma QuotientAtLeast(width: nat, q: nat, r: nat, n: nat)
    requires r < width && width * q + r >= width * n
    ensures q >= n
  {
    if q < n {
      TimesMonotone(width, q + 1, n);
    }
  }

  lemma TimesLess(width: nat, q: nat, n: nat)
    requires q >= n
    ensures width * (q - n) == width * q - width * n
  {
  }

  lemma IndexFrom(k: nat, width: nat, n: nat)
    requires width > 0 && k >= width * n
    ensures k / width >= n
    ensures (k - width * n) / width == k / width - n && (k - width * n) % width == k % width
  {
    var q, r := k / width, k % width;
    QuotientAtLeast(width, q, r, n);
    TimesLess(width, q, n);
    QuotientOf(k - width * n, width, q - n, r);
  }

  lemma BitAppend(a: seq<nat>, b: seq<nat>, width: nat, k: nat)
    requires width > 0
    ensures k < width * |a| ==> Bit(a + b, width, k) == Bit(a, width, k)
    ensures k >= width * |a| ==> Bit(a + b, width, k) == Bit(b, width, k - width * |a|)
  {
    hide BitAt;
    if k < width * |a| {
      IndexBelow(k, width, |a|);
    } else {
      IndexFrom(k, width, |a|);
    }
  }

  lemma QuotientOf(a: nat, n: nat, q: nat, r: nat)
    requires r < n && a == n * q + r
    ensures a / n == q && a % n == r
  {
    ModOf(a, n, q, r);
    assert n * (a / n - q) == 0;
  }

  /** Groups of zeros at the end change no bit. */
  lemma BitZeros(a: seq<nat>, width: nat, k: nat, zeros: seq<nat>)
    requires width > 0 && forall i :: 0 <= i < |zeros| ==> zeros[i] == 0
    ensures Bit(a + zeros, width, k) == Bit(a, width, k)
  {
    hide BitAt;
    if |a| <= k / width < |a| + |zeros| {
      ZeroBit(width - 1 - k % width);
    }
  }

  // --- the alphabet

  /** Table 1 of RFC 4648. */
  const ALPHABET: string := UPPER + LOWER + DIGITS + "+/"
  const UPPER := "ABCDEFGHIJKLMNOPQRSTUVWXYZ"
  const LOWER := "abcdefghijklmnopqrstuvwxyz"
  const DIGITS := "0123456789"

  function EncodeSix(val: nat): char
    requires val < 64
  {
    if val <= 25 then 'A' + val as char
    else if val <= 51 then 'a' + (val - 26) as char
    else if val <= 61 then '0' + (val - 52) as char
    else if val == 62 then '+'
    else '/'
  }

  function DecodeSix(c: char): Option<nat> {
    if 'A' <= c <= 'Z' then Some((c - 'A') as nat)
    else if 'a' <= c <= 'z' then Some((c - 'a') as nat + 26)
    else if '0' <= c <= '9' then Some((c - '0') as nat + 52)
    else if c == '+' then Some(62)
    else if c == '/' then Some(63)
    else None
  }

  lemma Letters(v: nat)
    requires v < 26
    ensures UPPER[v] == 'A' + v as char && LOWER[v] == 'a' + v as char
  {
  }

  lemma Numerals(v: nat)
    requires v < 10
    ensures DIGITS[v] == '0' + v as char
  {
  }

  lemma EncodeTable(v: nat)
    requires v < 64
    ensures |ALPHABET| == 64 && EncodeSix(v) == ALPHABET[v]
  {
    if v < 26 {
      Letters(v);
    } else if v < 52 {
      Letters(v - 26);
      assert ALPHABET[v] == LOWER[v - 26];
    } else if v < 62 {
      Numerals(v - 52);
      assert ALPHABET[v] == DIGITS[v - 52];
    }
  }

  lemma DecodeTable(c: char, v: nat)
    ensures DecodeSix(c) == Some(v) <==> v < 64 && EncodeSix(v) == c
    ensures c == '=' ==> DecodeSix(c) == None
  {
  }

  predicate Valid(t: string) {
    forall i :: 0 <= i < |t| ==> DecodeSix(t[i]) != None
  }

  /** The places of the characters of `t` in the alphabet. */
  function ValueOf(c: char): (v: nat)
    ensures v < 64
  {
    match DecodeSix(c)
    case Some(v) => v
    case None => 0
  }

  function Sextets(t: string): (v: seq<nat>)
    ensures |v| == |t| && forall i :: 0 <= i < |t| ==> v[i] == ValueOf(t[i])
  {
    seq(|t|, i requires 0 <= i < |t| => ValueOf(t[i]))
  }

  lemma AlphabetValue(c: char, v: nat)
    ensures DecodeSix(c) == Some(v) <==> v < |ALPHABET| && ALPHABET[v] == c
  {
    DecodeTable(c, v);
    if v < 64 {
      EncodeTable(v);
    } else {
      EncodeTable(0);
    }
  }

  lemma SextetsAppend(a: string, b: string)
    ensures Sextets(a + b) == Sextets(a) + Sextets(b)
  {
  }

  // --- encoding

  /** Characters that carry bits of `n` bytes. */
  function Carrying(n: nat): (m: nat)
    ensures m <= 4 * ((n + 2) / 3)
  {
    (8 * n + 5) / 6
  }

  /** Section 4 of RFC 4648: six bits to a character, the last group completed
      with zero bits, and the text padded to a multiple of four. */
  ghost predicate IsEncoding(data: seq<Byte>, s: string) {
    && |s| == 4 * ((|data| + 2) / 3)
    && Valid(s[..Carrying(|data|)])
    && (forall i :: Carrying(|data|) <= i < |s| ==> s[i] == '=')
    && SameBits(data, Sextets(s[..Carrying(|data|)]), 6 * Carrying(|data|))
  }

  /** The four characters of one chunk of up to three bytes. */
  method EncodeChunk(chunk: seq<Byte>) returns (chars: string)
    requires 1 <= |chunk| <= 3
    ensures IsEncoding(chunk, chars)
  {
    hide IsEncoding, EncodeSix;
    var b0: nat := chunk[0];
    var b1: nat := if |chunk| > 1 then chunk[1] else 0;
    var b2: nat := if |chunk| > 2 then chunk[2] else 0;
    var triple := b0 * 65536 + b1 * 256 + b2;
    HighSextets(b0, b1, b2);
    chars := [
      EncodeSix(triple / 262144),
      EncodeSix(triple / 4096 % 64),
      if |chunk| > 1 then EncodeSix(triple / 64 % 64) else '=',
      if |chunk| > 2 then EncodeSix(triple % 64) else '='
    ];
    ChunkEncoded(chunk, b0, b1, b2, chars);
  }

  method Encode(data: seq<Byte>) returns (out: string)
    ensures IsEncoding(data, out)
  {
    hide IsEncoding;
    out := "";
    EncodeEmpty();
    var i := 0;
    while i < |data|
      invariant i <= |data| && (i % 3 == 0 || i == |data|)
      invariant IsEncoding(data[..i], out)
    {
      var end := if i + 3 <= |data| then i + 3 else |data|;
      var chunk := data[i..end];
      var chars := EncodeChunk(chunk);
      EncodeStep(data, i, end, out, chars);
      out := out + chars;
      i := end;
    }
    assert data[..i] == data;
  }

  lemma EncodeStep(data: seq<Byte>, i: nat, end: nat, out: string, chars: string)
    requires i <= end <= |data| && i % 3 == 0 && IsEncoding(data[..i], out) && IsEncoding(data[i..end], chars)
    ensures IsEncoding(data[..end], out + chars)
  {
    hide IsEncoding;
    EncodingAppend(data[..i], out, data[i..end], chars);
    assert data[..i] + data[i..end] == data[..end];
  }

  lemma EncodeEmpty()
    ensures IsEncoding([], "")
  {
  }

  lemma TripleOf(b0: nat, b1: nat, b2: nat)
    requires b0 < 256 && b1 < 256 && b2 < 256
    ensures BytesOf(b0 * 65536 + b1 * 256 + b2) == [b0, b1, b2]
  {
    var triple := b0 * 65536 + b1 * 256 + b2;
    assert triple / 256 == b0 * 256 + b1;
  }

  lemma HighSextets(b0: nat, b1: nat, b2: nat)
    requires b0 < 256 && b1 < 256 && b2 < 256
    ensures (b0 * 65536 + b1 * 256 + b2) / 262144 < 64
    ensures b1 == 0 && b2 == 0 ==> (b0 * 65536 + b1 * 256 + b2) / 64 % 64 == 0
    ensures b2 == 0 ==> (b0 * 65536 + b1 * 256 + b2) % 64 == 0
  {
    var triple := b0 * 65536 + b1 * 256 + b2;
    if b1 == 0 && b2 == 0 {
      assert triple / 64 == 64 * (b0 * 16);
    }
    if b2 == 0 {
      assert triple == 64 * (b0 * 1024 + b1 * 4);
    }
  }

  lemma SixRoundTrip(v: nat)
    requires v < 64
    ensures DecodeSix(EncodeSix(v)) == Some(v) && ValueOf(EncodeSix(v)) == v
  {
    DecodeTable(EncodeSix(v), v);
  }

  lemma ChunkEncoded(y: seq<Byte>, b0: nat, b1: nat, b2: nat, s: string)
    requires 1 <= |y| <= 3 && b0 == y[0]
    requires b1 == if |y| > 1 then y[1] else 0
    requires b2 == if |y| > 2 then y[2] else 0
    requires
      b0 < 256 && b1 < 256 && b2 < 256 &&
      var triple := b0 * 65536 + b1 * 256 + b2;
      s == [
        EncodeSix(triple / 262144),
        EncodeSix(triple / 4096 % 64),
        if |y| > 1 then EncodeSix(triple / 64 % 64) else '=',
        if |y| > 2 then EncodeSix(triple % 64) else '='
      ]
    ensures IsEncoding(y, s)
  {
    hide EncodeSix, DecodeSix, SameBits, Sextets, ValueOf;
    var triple := b0 * 65536 + b1 * 256 + b2;
    TripleOf(b0, b1, b2);
    HighSextets(b0, b1, b2);
    var n, all := Carrying(|y|), SextetsOf(triple);
    var zeros := Zeros(4 - n);
    forall i | 0 <= i < n ensures DecodeSix(s[i]) == Some(all[i]) && ValueOf(s[i]) == all[i] {
      SixRoundTrip(all[i]);
    }
    assert Sextets(s[..n]) + zeros == all;
    var pad := Zeros(3 - |y|);
    assert y + pad == BytesOf(triple);
    TripleBits(triple);
    PaddedBits(y, pad, Sextets(s[..n]), zeros, 6 * n);
  }

  lemma PaddedBits(bytes: seq<nat>, pad: seq<nat>, sextets: seq<nat>, zeros: seq<nat>, n: nat)
    requires SameBits(bytes + pad, sextets + zeros, 24) && n <= 24
    requires (forall i :: 0 <= i < |pad| ==> pad[i] == 0) && (forall i :: 0 <= i < |zeros| ==> zeros[i] == 0)
    ensures SameBits(bytes, sextets, n)
  {
    hide Bit;
    forall k: nat | k < n ensures Bit(bytes, 8, k) == Bit(sextets, 6, k) {
      BitZeros(bytes, 8, k, pad);
      BitZeros(sextets, 6, k, zeros);
      assert Bit(bytes + pad, 8, k) == Bit(sextets + zeros, 6, k);
    }
  }

  /** Two texts of aligned bits, one after the other. */
  lemma SameBitsAppend(a: seq<nat>, u: seq<nat>, b: seq<nat>, v: seq<nat>, n: nat)
    requires 8 * |a| == 6 * |u| && SameBits(a, u, 8 * |a|) && SameBits(b, v, n)
    ensures SameBits(a + b, u + v, 8 * |a| + n)
  {
    hide Bit;
    forall k: nat | k < 8 * |a| + n ensures Bit(a + b, 8, k) == Bit(u + v, 6, k) {
      BitAppend(a, b, 8, k);
      BitAppend(u, v, 6, k);
      if k >= 8 * |a| {
        assert Bit(b, 8, k - 8 * |a|) == Bit(v, 6, k - 8 * |a|);
      }
    }
  }

  lemma AlignedLengths(m: nat, n: nat)
    requires m % 3 == 0
    ensures 4 * ((m + 2) / 3) == Carrying(m) && 8 * m == 6 * Carrying(m)
    ensures Carrying(m + n) == Carrying(m) + Carrying(n)
    ensures 4 * ((m + n + 2) / 3) == 4 * ((m + 2) / 3) + 4 * ((n + 2) / 3)
  {
    var q := m / 3;
    assert m == 3 * q && (8 * n + 24 * q + 5) / 6 == (8 * n + 5) / 6 + 4 * q;
    assert (n + 2 + 3 * q) / 3 == (n + 2) / 3 + q;
  }

  lemma EncodingAppend(x: seq<Byte>, s: string, y: seq<Byte>, t: string)
    requires |x| % 3 == 0 && IsEncoding(x, s) && IsEncoding(y, t)
    ensures IsEncoding(x + y, s + t)
  {
    hide SameBits, Sextets, DecodeSix;
    var n := Carrying(|y|);
    AlignedLengths(|x|, |y|);
    hide Carrying;
    assert s[..|s|] == s && (s + t)[..|s| + n] == s + t[..n];
    SextetsAppend(s, t[..n]);
    SameBitsAppend(x, Sextets(s), y, Sextets(t[..n]), 6 * n);
  }

  // --- decoding

  datatype Decoded = Decoded(bytes: seq<Byte>) | InvalidChar(c: char)

  /** Without the `=` at the end. */
  function Trim(s: string): (t: string)
    ensures |t| <= |s| && t == s[..|t|] && (t != "" ==> t[|t| - 1] != '=')
    ensures forall i :: |t| <= i < |s| ==> s[i] == '='
  {
    if s != "" && s[|s| - 1] == '=' then Trim(s[..|s| - 1]) else s
  }

  /** A chunk of one character yields a byte; a chunk of two, three or four one
      byte less than its length. */
  function DecodedLength(n: nat): nat {
    n / 4 * 3 + if n % 4 <= 1 then n % 4 else n % 4 - 1
  }

  /** The bits of `t`, in bytes. */
  ghost predicate Spells(t: string, bytes: seq<nat>) {
    |bytes| == DecodedLength(|t|) && SameBits(bytes, Sextets(t), 8 * |bytes|)
  }

  /** The characters before the padding are decoded, or the first of them that is
      not in the alphabet is reported. */
  ghost predicate IsDecoding(s: string, r: Decoded) {
    var t := Trim(s);
    match r
    case Decoded(bytes) => Valid(t) && Spells(t, bytes)
    case InvalidChar(c) => DecodeSix(c) == None && exists i :: 0 <= i < |t| && t[i] == c && Valid(t[..i])
  }

  /** `6 * (3 - i)` bits to the left. */
  function ShiftLeft(v: nat, i: nat): nat
    requires i < 4
  {
    if i == 0 then v * 262144 else if i == 1 then v * 4096 else if i == 2 then v * 64 else v
  }

  ghost function Accumulated(t: string, i: nat): nat
    requires i <= |t| <= 4
  {
    if i == 0 then 0 else Accumulated(t, i - 1) + ShiftLeft(ValueOf(t[i - 1]), i - 1)
  }

  method Decode(input: string) returns (r: Decoded)
    ensures IsDecoding(input, r)
  {
    hide Spells, DecodeSix, Trim, Valid, Accumulated, ShiftLeft;
    var t := Trim(input);
    var output: seq<Byte> := [];
    var at := 0;
    SpellsEmpty();
    while at < |t|
      invariant at <= |t| && (at % 4 == 0 || at == |t|)
      invariant Valid(t[..at]) && Spells(t[..at], output)
    {
      var end := if at + 4 <= |t| then at + 4 else |t|;
      var chunk := t[at..end];
      var accum: nat := 0;
      var i := 0;
      while i < |chunk|
        invariant i <= |chunk| && Valid(chunk[..i]) && accum == Accumulated(chunk, i)
      {
        match DecodeSix(chunk[i]) {
          case None => {
            ErrorAt(input, at, end, i);
            return InvalidChar(chunk[i]);
          }
          case Some(val) => {
            accum := accum + ShiftLeft(val, i);
            AccumulateStep(chunk, i);
          }
        }
        i := i + 1;
      }
      var bytes := [accum / 65536 % 256];
      if |chunk| > 2 {
        bytes := bytes + [accum / 256 % 256];
      }
      if |chunk| > 3 {
        bytes := bytes + [accum % 256];
      }
      ChunkDecoded(chunk, accum, bytes);
      SpellsAppend(t[..at], output, chunk, bytes);
      assert chunk[..|chunk|] == chunk;
      ValidAppend(t[..at], chunk);
      assert t[..at] + chunk == t[..end];
      output := output + bytes;
      at := end;
    }
    assert t[..at] == t;
    return Decoded(output);
  }

  lemma AccumulateStep(t: string, i: nat)
    requires i < |t| <= 4 && Valid(t[..i]) && DecodeSix(t[i]) != None
    ensures Accumulated(t, i + 1) == Accumulated(t, i) + ShiftLeft(DecodeSix(t[i]).value, i)
    ensures Valid(t[..i + 1])
  {
    hide DecodeSix, ShiftLeft;
  }

  lemma SpellsEmpty()
    ensures Spells("", []) && Valid("") && forall t: string :: |t| <= 4 ==> Accumulated(t, 0) == 0
  {
  }

  lemma ErrorAt(s: string, at: nat, end: nat, i: nat)
    requires at + i < end <= |Trim(s)| && Valid(Trim(s)[..at]) && Valid(Trim(s)[at..end][..i])
    requires DecodeSix(Trim(s)[at + i]) == None
    ensures IsDecoding(s, InvalidChar(Trim(s)[at + i]))
  {
    hide DecodeSix, Trim;
    var t := Trim(s);
    ValidAppend(t[..at], t[at..end][..i]);
    assert t[..at + i] == t[..at] + t[at..end][..i];
  }

  lemma ValidAppend(u: string, v: string)
    requires Valid(u) && Valid(v)
    ensures Valid(u + v)
  {
  }

  lemma Places(v0: nat, v1: nat, v2: nat, v3: nat)
    requires v0 < 64 && v1 < 64 && v2 < 64 && v3 < 64
    ensures v0 * 262144 + v1 * 4096 + v2 * 64 + v3 < 16777216
    ensures SextetsOf(v0 * 262144 + v1 * 4096 + v2 * 64 + v3) == [v0, v1, v2, v3]
  {
    var accum := v0 * 262144 + v1 * 4096 + v2 * 64 + v3;
    assert accum / 64 == v0 * 4096 + v1 * 64 + v2;
    assert accum / 4096 == v0 * 64 + v1;
  }

  function At(t: string, i: nat): (v: nat)
    ensures v < 64
  {
    if i < |t| then ValueOf(t[i]) else 0
  }

  lemma AccumulatedPlaces(t: string)
    requires 1 <= |t| <= 4
    ensures Accumulated(t, |t|) == At(t, 0) * 262144 + At(t, 1) * 4096 + At(t, 2) * 64 + At(t, 3)
  {
    hide ValueOf;
    assert Accumulated(t, 0) == 0;
    assert Accumulated(t, 1) == Accumulated(t, 0) + ShiftLeft(ValueOf(t[0]), 0);
    assert |t| >= 2 ==> Accumulated(t, 2) == Accumulated(t, 1) + ShiftLeft(ValueOf(t[1]), 1);
    assert |t| >= 3 ==> Accumulated(t, 3) == Accumulated(t, 2) + ShiftLeft(ValueOf(t[2]), 2);
    assert |t| >= 4 ==> Accumulated(t, 4) == Accumulated(t, 3) + ShiftLeft(ValueOf(t[3]), 3);
  }

  function Zeros(n: nat): (z: seq<nat>)
    ensures |z| == n && forall i :: 0 <= i < n ==> z[i] == 0
  {
    seq(n, _ => 0)
  }

  lemma PlaceAt(t: string, i: nat)
    requires |t| <= 4 && i < 4
    ensures (Sextets(t) + Zeros(4 - |t|))[i] == At(t, i)
  {
    hide ValueOf, Sextets, Zeros;
  }

  lemma PlacesOf(t: string)
    requires |t| <= 4
    ensures [At(t, 0), At(t, 1), At(t, 2), At(t, 3)] == Sextets(t) + Zeros(4 - |t|)
  {
    hide At, Sextets, Zeros;
    PlaceAt(t, 0);
    PlaceAt(t, 1);
    PlaceAt(t, 2);
    PlaceAt(t, 3);
  }

  lemma AccumulatedParts(t: string)
    requires 1 <= |t| <= 4
    ensures
      var accum := Accumulated(t, |t|);
      accum < 16777216 && SextetsOf(accum) == Sextets(t) + Zeros(4 - |t|)
  {
    hide SextetsOf, Accumulated, Sextets, Zeros, At;
    AccumulatedPlaces(t);
    Places(At(t, 0), At(t, 1), At(t, 2), At(t, 3));
    PlacesOf(t);
  }

  lemma ChunkDecoded(t: string, accum: nat, bytes: seq<nat>)
    requires 1 <= |t| <= 4 && accum == Accumulated(t, |t|)
    requires bytes == [accum / 65536 % 256] + (if |t| > 2 then [accum / 256 % 256] else [])
                      + (if |t| > 3 then [accum % 256] else [])
    ensures Spells(t, bytes)
  {
    hide Sextets, ValueOf, Accumulated, Bit;
    AccumulatedParts(t);
    TripleBits(accum);
    var zeros, all := Zeros(4 - |t|), BytesOf(accum);
    assert bytes == all[..|bytes|];
    forall k: nat | k < 8 * |bytes| ensures Bit(bytes, 8, k) == Bit(Sextets(t), 6, k) {
      assert all == bytes + all[|bytes|..];
      BitAppend(bytes, all[|bytes|..], 8, k);
      BitZeros(Sextets(t), 6, k, zeros);
    }
  }

  lemma SpellsAppend(s: string, x: seq<nat>, t: string, y: seq<nat>)
    requires |s| % 4 == 0 && Spells(s, x) && Spells(t, y)
    ensures Spells(s + t, x + y)
  {
    hide SameBits, Sextets;
    SextetsAppend(s, t);
    SameBitsAppend(x, Sextets(s), y, Sextets(t), 8 * |y|);
  }

  // --- round trips

  /** Bytes of the same bits are the same. */
  lemma SameBytes(x: seq<Byte>, y: seq<nat>, v: seq<nat>)
    requires |x| == |y| && SameBits(x, v, 8 * |x|) && SameBits(y, v, 8 * |x|)
    requires forall i :: 0 <= i < |y| ==> y[i] < 256
    ensures x == y
  {
    hide BitAt;
    Powers();
    forall i | 0 <= i < |x| ensures x[i] == y[i] {
      forall p: nat | p < 8 ensures BitAt(x[i], p) == BitAt(y[i], p) {
        var k := 8 * i + (7 - p);
        assert k / 8 == i && k % 8 == 7 - p;
        assert Bit(x, 8, k) == Bit(v, 6, k) == Bit(y, 8, k);
      }
      BitsDetermine(x[i], y[i], 8);
    }
  }

  lemma CarryingLength(n: nat)
    ensures DecodedLength(Carrying(n)) == n && 8 * n <= 6 * Carrying(n) && Carrying(n) % 4 != 1
    ensures 4 * ((n + 2) / 3) == (Carrying(n) + 3) / 4 * 4
  {
    var q, r := n / 3, n % 3;
    assert n == 3 * q + r;
    assert Carrying(n) == 4 * q + (if r == 0 then 0 else r + 1);
  }

  lemma DecodedLengthIs(m: nat)
    requires m % 4 != 1
    ensures Carrying(DecodedLength(m)) == m
  {
    var q, r := m / 4, m % 4;
    assert m == 4 * q + r;
    assert DecodedLength(m) == 3 * q + (if r == 0 then 0 else r - 1);
  }

  /** What the padding is trimmed to is exactly what carries bits. */
  lemma TrimEncoding(x: seq<Byte>, s: string)
    requires IsEncoding(x, s)
    ensures Trim(s) == s[..Carrying(|x|)] && Valid(Trim(s))
  {
    hide SameBits, DecodeSix, Carrying;
    var n := Carrying(|x|);
    DecodeTable('=', 0);
    assert n > 0 ==> DecodeSix(s[..n][n - 1]) != None;
    TrimIs(s, n);
  }

  lemma {:induction false} TrimIs(s: string, n: nat)
    requires n <= |s| && (n > 0 ==> s[n - 1] != '=') && forall i :: n <= i < |s| ==> s[i] == '='
    ensures Trim(s) == s[..n]
  {
    if n == |s| {
      assert s[..n] == s;
    } else {
      var shorter := s[..|s| - 1];
      TrimIs(shorter, n);
      assert shorter[..n] == s[..n];
    }
  }

  /** Decoding what was encoded gives the data back. */
  lemma RoundTrip(x: seq<Byte>, s: string, r: Decoded)
    requires IsEncoding(x, s) && IsDecoding(s, r)
    ensures r == Decoded(x)
  {
    TrimEncoding(x, s);
    hide SameBits, DecodeSix, Trim, Carrying, DecodedLength;
    CarryingLength(|x|);
    var t := Trim(s);
    match r {
      case Decoded(bytes) =>
        FewerBits(x, Sextets(t), 6 * |t|, 8 * |x|);
        SameBytes(x, bytes, Sextets(t));
      case InvalidChar(c) =>
    }
  }

  lemma FewerBits(a: seq<nat>, v: seq<nat>, m: nat, n: nat)
    requires SameBits(a, v, m) && n <= m
    ensures SameBits(a, v, n)
  {
  }

  /** There is one encoding of given data. */
  lemma EncodingUnique(x: seq<Byte>, s: string, t: string)
    requires IsEncoding(x, s) && IsEncoding(x, t)
    ensures s == t
  {
    hide SameBits, DecodeSix, Carrying;
    var n := Carrying(|x|);
    var u, v := s[..n], t[..n];
    forall i | 0 <= i < n ensures s[i] == t[i] {
      SameSextet(x, Sextets(u), Sextets(v), n, i);
      assert Sextets(u)[i] == Sextets(v)[i];
      SameValue(u[i], v[i]);
    }
    assert s == u + s[n..] && t == v + t[n..];
    assert forall i :: n <= i < |s| ==> s[i] == t[i];
  }

  lemma SameValue(c: char, d: char)
    requires DecodeSix(c) != None && DecodeSix(d) != None && ValueOf(c) == ValueOf(d)
    ensures c == d
  {
    DecodeTable(c, ValueOf(c));
    DecodeTable(d, ValueOf(d));
  }

  lemma SameSextet(x: seq<nat>, u: seq<nat>, v: seq<nat>, n: nat, i: nat)
    requires i < n && |u| == |v| == n && u[i] < 64 && v[i] < 64
    requires SameBits(x, u, 6 * n) && SameBits(x, v, 6 * n)
    ensures u[i] == v[i]
  {
    hide BitAt;
    Powers();
    forall p: nat | p < 6 ensures BitAt(u[i], p) == BitAt(v[i], p) {
      var k := 6 * i + (5 - p);
      assert k / 6 == i && k % 6 == 5 - p;
      assert Bit(x, 8, k) == Bit(u, 6, k) == Bit(v, 6, k);
    }
    BitsDetermine(u[i], v[i], 6);
  }

  /** Padded on the right to a multiple of four, without a lone last character,
      and with the bits that fill no byte zero. */
  ghost predicate Canonical(s: string) {
    var t := Trim(s);
    && |s| == (|t| + 3) / 4 * 4
    && |t| % 4 != 1
    && (|t| % 4 == 2 ==> ValueOf(t[|t| - 1]) % 16 == 0)
    && (|t| % 4 == 3 ==> ValueOf(t[|t| - 1]) % 4 == 0)
  }

  lemma FirstBits(v: nat)
    ensures BitAt(v, 0) == v % 2 && BitAt(v, 1) == v / 2 % 2
    ensures BitAt(v, 2) == BitAt(v / 2 / 2, 0) && BitAt(v, 3) == BitAt(v / 2 / 2, 1)
  {
    assert BitAt(v, 2) == BitAt(v / 2, 1);
    assert BitAt(v, 3) == BitAt(v / 2, 2);
  }

  lemma Quarter(v: nat)
    ensures v % 4 == 0 <==> BitAt(v, 0) == 0 && BitAt(v, 1) == 0
    ensures BitAt(v, 2) == BitAt(v / 4, 0) && BitAt(v, 3) == BitAt(v / 4, 1)
  {
    hide BitAt;
    FirstBits(v);
    var q, r := v / 4, v % 4;
    assert v == 4 * q + r && v / 2 == 2 * q + r / 2;
  }

  lemma LowBits(v: nat)
    ensures v % 4 == 0 <==> BitAt(v, 0) == 0 && BitAt(v, 1) == 0
    ensures v % 16 == 0 <==> v % 4 == 0 && BitAt(v, 2) == 0 && BitAt(v, 3) == 0
  {
    hide BitAt;
    Quarter(v);
    Quarter(v / 4);
  }

  /** Bits past the last whole byte of `t`. */
  ghost predicate SpareZero(t: string) {
    forall k: nat :: 8 * DecodedLength(|t|) <= k < 6 * |t| ==> Bit(Sextets(t), 6, k) == 0
  }

  predicate LowZero(v: nat, low: nat) {
    forall p: nat :: p < low ==> BitAt(v, p) == 0
  }

  /** The last `low` bits of `t` are those of its last character. */
  lemma SpareThenLow(t: string, v: nat, low: nat)
    requires t != "" && v == ValueOf(t[|t| - 1]) && low < 6 && 8 * DecodedLength(|t|) == 6 * |t| - low
    requires SpareZero(t)
    ensures LowZero(v, low)
  {
    hide BitAt, ValueOf, DecodedLength, Sextets, Bit;
    forall p: nat | p < low ensures BitAt(v, p) == 0 {
      LastBit(t, v, p);
      assert Bit(Sextets(t), 6, 6 * |t| - 1 - p) == 0;
    }
  }

  lemma LowThenSpare(t: string, v: nat, low: nat)
    requires t != "" && v == ValueOf(t[|t| - 1]) && low < 6 && 8 * DecodedLength(|t|) == 6 * |t| - low
    requires LowZero(v, low)
    ensures SpareZero(t)
  {
    hide BitAt, ValueOf, DecodedLength, Sextets, Bit;
    forall k: nat | 8 * DecodedLength(|t|) <= k < 6 * |t| ensures Bit(Sextets(t), 6, k) == 0 {
      var p: nat := 6 * |t| - 1 - k;
      LastBit(t, v, p);
      assert BitAt(v, p) == 0;
    }
  }

  lemma LowZeroIs(v: nat)
    ensures LowZero(v, 2) <==> v % 4 == 0
    ensures LowZero(v, 4) <==> v % 16 == 0
  {
    hide BitAt;
    LowBits(v);
    assert LowZero(v, 2) <==> BitAt(v, 0) == 0 && BitAt(v, 1) == 0;
    assert LowZero(v, 4) <==> BitAt(v, 0) == 0 && BitAt(v, 1) == 0 && BitAt(v, 2) == 0 && BitAt(v, 3) == 0;
  }

  lemma SpareBits(t: string)
    requires |t| % 4 != 1
    ensures SpareZero(t) <==>
              && (|t| % 4 == 2 ==> ValueOf(t[|t| - 1]) % 16 == 0)
              && (|t| % 4 == 3 ==> ValueOf(t[|t| - 1]) % 4 == 0)
  {
    var n := |t|;
    if n % 4 == 0 {
      NoSpare(t);
    } else {
      hide LowZero, ValueOf, SpareZero;
      var v, low := ValueOf(t[n - 1]), if n % 4 == 2 then 4 else 2;
      SpareIndex(n);
      LowZeroIs(v);
      if SpareZero(t) {
        SpareThenLow(t, v, low);
      }
      if LowZero(v, low) {
        LowThenSpare(t, v, low);
      }
    }
  }

  lemma NoSpare(t: string)
    requires |t| % 4 == 0
    ensures SpareZero(t)
  {
  }

  lemma SpareIndex(n: nat)
    requires n % 4 == 2 || n % 4 == 3
    ensures 8 * DecodedLength(n) == 6 * n - (if n % 4 == 2 then 4 else 2)
  {
  }

  lemma LastBit(t: string, v: nat, p: nat)
    requires t != "" && v == ValueOf(t[|t| - 1]) && p < 6
    ensures Bit(Sextets(t), 6, 6 * |t| - 1 - p) == BitAt(v, p)
  {
    hide BitAt, ValueOf;
    var k := 6 * |t| - 1 - p;
    assert k / 6 == |t| - 1 && k % 6 == 5 - p;
  }

  lemma BeyondZero(x: seq<nat>, k: nat)
    requires k >= 8 * |x|
    ensures Bit(x, 8, k) == 0
  {
  }

  lemma SpareFilled(x: seq<nat>, t: string)
    requires Spells(t, x) && |t| % 4 != 1
    ensures SameBits(x, Sextets(t), 6 * |t|) <==> SpareZero(t)
  {
    hide Bit, Sextets;
    var v, n := Sextets(t), 6 * |t|;
    forall k: nat | 8 * |x| <= k ensures Bit(x, 8, k) == 0 {
      BeyondZero(x, k);
    }
    if SameBits(x, v, n) {
      forall k: nat | 8 * |x| <= k < n ensures Bit(v, 6, k) == 0 {
        assert Bit(x, 8, k) == Bit(v, 6, k);
      }
    }
    if SpareZero(t) {
      forall k: nat | k < n ensures Bit(x, 8, k) == Bit(v, 6, k) {}
    }
  }

  /** Encoding what was decoded gives the text back exactly when the text is
      canonical; any other text that decodes is one of several for its bytes. */
  lemma ReencodeIff(s: string, x: seq<Byte>)
    requires IsDecoding(s, Decoded(x))
    ensures IsEncoding(x, s) <==> Canonical(s)
  {
    hide SameBits, DecodeSix, ValueOf, Carrying, DecodedLength;
    var t := Trim(s);
    if IsEncoding(x, s) {
      TrimEncoding(x, s);
      CarryingLength(|x|);
    } else if Canonical(s) {
      DecodedLengthIs(|t|);
      CarryingLength(|x|);
    }
    if |t| % 4 != 1 {
      SpareBits(t);
      SpareFilled(x, t);
    }
  }

  function Padding(k: nat): string {
    if k == 0 then "" else Padding(k - 1) + "="
  }

  /** Trailing padding makes no difference to the decoder. */
  lemma {:induction false} PaddingIgnored(s: string, r: Decoded, k: nat)
    ensures IsDecoding(s + Padding(k), r) <==> IsDecoding(s, r)
  {
    hide IsDecoding;
    if k > 0 {
      PaddingIgnored(s, r, k - 1);
      assert s + Padding(k) == s + Padding(k - 1) + "=";
      OnePadding(s + Padding(k - 1), r);
    } else {
      assert s + Padding(0) == s;
    }
  }

  lemma OnePadding(s: string, r: Decoded)
    ensures IsDecoding(s + "=", r) <==> IsDecoding(s, r)
  {
    hide Valid, Spells, DecodeSix;
    TrimOne(s);
    hide Trim;
  }

  lemma TrimOne(s: string)
    ensures Trim(s + "=") == Trim(s)
  {
    assert (s + "=")[..|s|] == s;
  }

  /** The decoder has one answer, and it is an error exactly when some character
      before the padding is not in the alphabet. */
  lemma DecodingUnique(s: string, a: Decoded, b: Decoded)
    requires IsDecoding(s, a) && IsDecoding(s, b)
    ensures a == b && (a.InvalidChar? <==> !Valid(Trim(s)))
  {
    hide SameBits, DecodeSix, Trim;
    if a.Decoded? && b.Decoded? {
      SameBytes(a.bytes, b.bytes, Sextets(Trim(s)));
    } else if a.InvalidChar? && b.InvalidChar? {
      FirstInvalid(Trim(s), a.c, b.c);
    }
  }

  lemma FirstInvalid(t: string, c: char, d: char)
    requires DecodeSix(c) == None && exists i :: 0 <= i < |t| && t[i] == c && Valid(t[..i])
    requires DecodeSix(d) == None && exists i :: 0 <= i < |t| && t[i] == d && Valid(t[..i])
    ensures c == d
  {
    hide DecodeSix;
    var i :| 0 <= i < |t| && t[i] == c && Valid(t[..i]);
    var j :| 0 <= j < |t| && t[j] == d && Valid(t[..j]);
    if i < j {
      ValidAt(t, j, i);
    } else if j < i {
      ValidAt(t, i, j);
    }
  }

  lemma ValidAt(t: string, j: nat, i: nat)
    requires i < j <= |t| && Valid(t[..j])
    ensures DecodeSix(t[i]) != None
  {
    assert t[..j][i] == t[i];
  }

  /** A lone last character, which section 4 of RFC 4648 does not allow, is
      accepted and yields a byte. */
  lemma LoneCharacter()
    ensures !Canonical("Q") && IsDecoding("Q", Decoded([64]))
  {
    var t := "Q";
    assert DecodeSix('Q') == Some(16);
    assert Accumulated(t, 1) == 16 * 262144;
    ChunkDecoded(t, 16 * 262144, [64]);
  }
}
