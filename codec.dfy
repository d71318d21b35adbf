/** Byte-level encodings shared by master and slave: big-endian 16-bit words, and coils
    packed LSB-first, eight to a byte (MODBUS Application Protocol, sections 6.1 and 6.11). */
module Codec {
  import opened Codes
  import opened EnumerableExtensions

  /** The high byte of a 16-bit value, `(byte)(x >> 8)`. */
  function Hi(x: ushort): byte
  {
    x / 256
  }

  /** The low byte of a 16-bit value, `(byte)(x & 0xff)`. */
  function Lo(x: ushort): byte
  {
    x % 256
  }

  /** The big-endian word `hi << 8 | lo`. */
  function Word(hi: byte, lo: byte): ushort
  {
    hi * 256 + lo
  }

  /** A word splits back into the two bytes it was joined from. */
  lemma HalvesOfWord(hi: byte, lo: byte)
    ensures Hi(Word(hi, lo)) == hi && Lo(Word(hi, lo)) == lo
  {
  }

  /** Splitting a word and joining the halves gives the word back. */
  lemma WordOfHalves(x: ushort)
    ensures Word(Hi(x), Lo(x)) == x
  {
  }

  /** A function code followed by two big-endian words: the first five bytes of every request
      that carries an address and a quantity or value. */
  function FunctionAndWords(functionCode: byte, first: ushort, second: ushort): (pdu: seq<byte>)
    ensures |pdu| == 5 && pdu[0] == functionCode
    ensures Word(pdu[1], pdu[2]) == first && Word(pdu[3], pdu[4]) == second
  {
    WordOfHalves(first);
    WordOfHalves(second);
    [functionCode, Hi(first), Lo(first), Hi(second), Lo(second)]
  }

  /** `n / 8 + (n % 8 != 0 ? 1 : 0)`: the number of bytes that hold `n` coils. */
  function Ceil8(n: int): (c: int)
    ensures n >= 0 ==> 8 * (c - 1) < n <= 8 * c
  {
    n / 8 + (if n % 8 != 0 then 1 else 0)
  }

  /** `(byte)(b | 0x80)`: the function code of an exception response. */
  function SetHighBit(b: byte): (r: byte)
    ensures r >= 0x80 && r % 0x80 == b % 0x80
  {
    if b < 0x80 then b + 0x80 else b
  }

  /** `(b & (1 << n)) != 0` for a non-negative `b`. */
  function Bit(b: nat, n: nat): bool
  {
    if n == 0 then b % 2 == 1 else Bit(b / 2, n - 1)
  }

  function Pow2(n: nat): (p: nat)
    ensures p >= 1
  {
    if n == 0 then 1 else 2 * Pow2(n - 1)
  }

  lemma {:induction false} Pow2Monotonic(m: nat, n: nat)
    requires m <= n
    ensures Pow2(m) <= Pow2(n)
    decreases n
  {
    if m < n {
      Pow2Monotonic(m, n - 1);
    }
  }

  /** No bit of zero is set. */
  lemma {:induction false} BitOfZero(n: nat)
    ensures !Bit(0, n)
  {
    if n > 0 {
      BitOfZero(n - 1);
    }
  }

  /** The bits, LSB first, OR-ed into one number: bit `i` is `bits[i]`, every higher bit is clear. */
  function BitsValue(bits: seq<bool>): (v: nat)
    ensures v < Pow2(|bits|)
    ensures forall n: nat {:trigger Bit(v, n)} :: Bit(v, n) == (n < |bits| && bits[n])
  {
    if bits == [] then
      assert forall n: nat {:trigger Bit(0, n)} :: !Bit(0, n) by {
        forall n: nat { BitOfZero(n); }
      }
      0
    else
      var rest := BitsValue(bits[1..]);
      var v := (if bits[0] then 1 else 0) + 2 * rest;
      assert forall n: nat {:trigger Bit(v, n)} :: n > 0 ==> Bit(v, n) == Bit(rest, n - 1);
      v
  }

  /** `a | b` on non-negative numbers. */
  function Or(a: nat, b: nat): nat
    decreases a
  {
    if a == 0 then b
    else if b == 0 then a
    else (if a % 2 == 1 || b % 2 == 1 then 1 else 0) + 2 * Or(a / 2, b / 2)
  }

  /** Bit `n` of `a | b` is set exactly when it is set in `a` or in `b`. */
  lemma {:induction false} OrBits(a: nat, b: nat)
    ensures forall n: nat {:trigger Bit(Or(a, b), n)} :: Bit(Or(a, b), n) == (Bit(a, n) || Bit(b, n))
    decreases a
  {
    forall n: nat ensures Bit(Or(a, b), n) == (Bit(a, n) || Bit(b, n)) {
      if a == 0 {
        BitOfZero(n);
      } else if b == 0 {
        BitOfZero(n);
      } else if n > 0 {
        OrBits(a / 2, b / 2);
      }
    }
  }

  /** OR-ing two numbers below `2^n` stays below `2^n`. */
  lemma {:induction false} OrBelowPow2(a: nat, b: nat, n: nat)
    requires a < Pow2(n) && b < Pow2(n)
    ensures Or(a, b) < Pow2(n)
    decreases n
  {
    if a != 0 && b != 0 {
      OrBelowPow2(a / 2, b / 2, n - 1);
    }
  }

  /** Up to eight coils packed into one byte (ToMbByte, BooleansToByte after their size guard). */
  function PackByte(bits: seq<bool>): (b: byte)
    requires |bits| <= 8
    ensures forall n: nat {:trigger Bit(b, n)} :: n < 8 ==> Bit(b, n) == (n < |bits| && bits[n])
  {
    Pow2Monotonic(|bits|, 8);
    BitsValue(bits)
  }

  /** The eight bits of a byte, LSB first. */
  function ByteBits(b: byte): (bits: seq<bool>)
  {
    seq(8, n requires 0 <= n => Bit(b, n))
  }

  /** `bytes.SelectMany(b => Enumerable.Range(0, 8).Select(n => (b & (1 << n)) != 0))`. */
  function BytesToBits(bytes: seq<byte>): (bits: seq<bool>)
    ensures |bits| == 8 * |bytes|
  {
    if bytes == [] then [] else ByteBits(bytes[0]) + BytesToBits(bytes[1..])
  }

  lemma {:induction false} BytesToBitsAt(bytes: seq<byte>, k: nat)
    requires k < 8 * |bytes|
    ensures BytesToBits(bytes)[k] == Bit(bytes[k / 8], k % 8)
  {
    if k >= 8 {
      BytesToBitsAt(bytes[1..], k - 8);
    }
  }

  /** `Take(count)`: the first `count` elements, or all of them when there are fewer. */
  function Take<T>(s: seq<T>, count: int): (r: seq<T>)
    ensures |r| == if count < 0 then 0 else if count < |s| then count else |s|
    ensures r == s[..|r|]
  {
    if count <= 0 then [] else if count < |s| then s[..count] else s
  }

  /** The first `count` coils carried LSB-first by `bytes`. */
  function BitsOf(bytes: seq<byte>, count: int): (bits: seq<bool>)
    requires 0 <= count <= 8 * |bytes|
    ensures |bits| == count
    ensures forall i :: 0 <= i < count ==> bits[i] == Bit(bytes[i / 8], i % 8)
  {
    forall i | 0 <= i < count ensures BytesToBits(bytes)[i] == Bit(bytes[i / 8], i % 8) {
      BytesToBitsAt(bytes, i);
    }
    Take(BytesToBits(bytes), count)
  }

  /** `values.Chunk(8).Select(ToMbByte)`: coils packed eight to a byte. */
  function PackBits(values: seq<bool>): (bytes: seq<byte>)
    ensures |bytes| == Ceil8(|values|)
  {
    ChunkCount(values, 8);
    var chunks := Chunks(values, 8);
    seq(|chunks|, j requires 0 <= j < |chunks| => PackByte(chunks[j]))
  }

  /** Packed coils take ceil(n / 8) bytes; coil `8j + n` is bit `n` of byte `j`, and the
      bits past the last coil are clear. */
  lemma PackBitsAt(values: seq<bool>)
    ensures |PackBits(values)| == Ceil8(|values|)
    ensures forall j, n :: 0 <= j < |PackBits(values)| && 0 <= n < 8 ==>
              Bit(PackBits(values)[j], n) == (8 * j + n < |values| && values[8 * j + n])
  {
    var chunks := Chunks(values, 8);
    ChunkCount(values, 8);
    forall j | 0 <= j < |chunks|
      ensures forall n :: 0 <= n < 8 ==> Bit(PackBits(values)[j], n) == (8 * j + n < |values| && values[8 * j + n])
    {
      PackedByteAt(values, j);
    }
  }

  /** Byte `j` of the packed coils holds coils `8j` to `8j + 7`. */
  lemma PackedByteAt(values: seq<bool>, j: nat)
    requires j < |PackBits(values)|
    ensures forall n :: 0 <= n < 8 ==> Bit(PackBits(values)[j], n) == (8 * j + n < |values| && values[8 * j + n])
  {
    var chunks := Chunks(values, 8);
    ChunkCount(values, 8);
    ChunkAt(values, 8, j);
    ChunkStartIsProduct(j, 8);
    ChunkStartIsProduct(j + 1, 8);
    var chunk := chunks[j];
    assert PackBits(values)[j] == PackByte(chunk);
    forall n | 0 <= n < 8
      ensures Bit(PackBits(values)[j], n) == (8 * j + n < |values| && values[8 * j + n])
    {
      if n < |chunk| {
        assert chunk[n] == values[8 * j + n];
      }
    }
  }

  /** Unpacking packed coils gives them back. */
  lemma UnpackPackedBits(values: seq<bool>)
    ensures 8 * |PackBits(values)| >= |values|
    ensures BitsOf(PackBits(values), |values|) == values
  {
    PackBitsAt(values);
    var bytes := PackBits(values);
    forall i | 0 <= i < |values| ensures BitsOf(bytes, |values|)[i] == values[i] {
      assert 8 * (i / 8) + i % 8 == i;
    }
  }

  /** `words.SelectMany(w => new byte[] { (byte)(w >> 8), (byte)(w & 0xff) })`. */
  function WordsToBytes(words: seq<ushort>): (bytes: seq<byte>)
    ensures |bytes| == 2 * |words|
    ensures forall i :: 0 <= i < |words| ==> bytes[2 * i] == Hi(words[i]) && bytes[2 * i + 1] == Lo(words[i])
  {
    if words == [] then []
    else
      var rest := WordsToBytes(words[1..]);
      var bytes := [Hi(words[0]), Lo(words[0])] + rest;
      assert forall i :: 1 <= i < |words| ==> bytes[2 * i] == rest[2 * (i - 1)] && bytes[2 * i + 1] == rest[2 * (i - 1) + 1];
      bytes
  }

  /** `bytes.Chunk(2).Select(b => (ushort)(b[0] << 8 | b[1]))` over an even number of bytes. */
  function BytesToWords(bytes: seq<byte>): (words: seq<ushort>)
    requires |bytes| % 2 == 0
    ensures |words| == |bytes| / 2
    ensures forall i :: 0 <= i < |words| ==> words[i] == Word(bytes[2 * i], bytes[2 * i + 1])
  {
    seq(|bytes| / 2, i requires 0 <= i < |bytes| / 2 => Word(bytes[2 * i], bytes[2 * i + 1]))
  }

  /** An even run of bytes cut into chunks of two: every chunk is a pair, and pair `j` starts at `2j`. */
  lemma PairChunks(bytes: seq<byte>)
    requires |bytes| % 2 == 0
    ensures |Chunks(bytes, 2)| == |bytes| / 2
    ensures forall j :: 0 <= j < |bytes| / 2 ==> Chunks(bytes, 2)[j] == bytes[2 * j .. 2 * j + 2]
  {
    ChunkCount(bytes, 2);
    forall j | 0 <= j < |bytes| / 2 ensures Chunks(bytes, 2)[j] == bytes[2 * j .. 2 * j + 2] {
      ChunkAt(bytes, 2, j);
      ChunkStartIsProduct(j, 2);
      ChunkStartIsProduct(j + 1, 2);
    }
  }

  /** `bytes.Chunk(2).Select(b => (ushort)(b.ElementAt(0) << 8 | b.ElementAt(1)))`: over an even
      number of bytes it reads the same words as BytesToWords. */
  function ChunkedWords(bytes: seq<byte>): (words: seq<ushort>)
    requires |bytes| % 2 == 0
    ensures words == BytesToWords(bytes)
  {
    PairChunks(bytes);
    var chunks := Chunks(bytes, 2);
    seq(|chunks|, j requires 0 <= j < |chunks| => Word(chunks[j][0], chunks[j][1]))
  }

  /** Words survive being written out as bytes and read back. */
  lemma WordsRoundTrip(words: seq<ushort>)
    ensures BytesToWords(WordsToBytes(words)) == words
  {
  }

  /** An even run of bytes survives being read as words and written back. */
  lemma BytesRoundTrip(bytes: seq<byte>)
    requires |bytes| % 2 == 0
    ensures WordsToBytes(BytesToWords(bytes)) == bytes
  {
    var back := WordsToBytes(BytesToWords(bytes));
    forall k | 0 <= k < |bytes| ensures back[k] == bytes[k] {
      var i := k / 2;
      HalvesOfWord(bytes[2 * i], bytes[2 * i + 1]);
      assert k == 2 * i || k == 2 * i + 1;
    }
  }
}
