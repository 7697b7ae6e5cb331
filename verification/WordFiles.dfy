/** Files of little-endian 32-bit words. */
module WordFiles {
  import opened Base

  type Byte = x: nat | x < 256
  type Word = x: nat | x < 0x1_0000_0000

  /** What n bytes can hold. */
  function Limit(n: nat): (r: nat)
    ensures n == 4 ==> r == 0x1_0000_0000
  {
    if n == 0 then 1
    else
      assert n == 4 ==> Limit(1) == 256 && Limit(2) == 65536 && Limit(3) == 16777216;
      256 * Limit(n - 1)
  }

  function ToBytes(w: nat, n: nat): (b: seq<Byte>)
    ensures |b| == n
  {
    if n == 0 then [] else [w % 256] + ToBytes(w / 256, n - 1)
  }

  function FromBytes(b: seq<Byte>): (w: nat)
    ensures w < Limit(|b|)
  {
    if b == [] then 0
    else
      var low: nat := b[0];
      low + 256 * FromBytes(b[1..])
  }

  lemma {:induction false} BytesRoundTrip(w: nat, n: nat)
    requires w < Limit(n)
    ensures FromBytes(ToBytes(w, n)) == w
  {
    if n != 0 { BytesRoundTrip(w / 256, n - 1); }
  }

  function BytesOf(w: Word): (b: seq<Byte>)
    ensures |b| == 4
  {
    ToBytes(w, 4)
  }

  /** Byte i of a word, the lowest first. */
  lemma LittleEndian(w: Word)
    ensures BytesOf(w) == [w % 256, w / 256 % 256, w / 65536 % 256, w / 16777216]
  {
    var a: nat, b: nat, c: nat := w / 256, w / 65536, w / 16777216;
    assert a / 256 == b && b / 256 == c && c % 256 == c;
    assert ToBytes(c, 1) == [c] + ToBytes(c / 256, 0);
    assert ToBytes(b, 2) == [b % 256] + ToBytes(c, 1);
    assert ToBytes(a, 3) == [a % 256] + ToBytes(b, 2);
  }

  function Encode(words: seq<Word>): (file: seq<Byte>)
    ensures |file| == 4 * |words|
  {
    if words == [] then [] else BytesOf(words[0]) + Encode(words[1..])
  }

  /** The whole words of a file. */
  function Decode(file: seq<Byte>): (words: seq<Word>)
    ensures |words| == |file| / 4
  {
    if |file| < 4 then [] else [FromBytes(file[..4])] + Decode(file[4..])
  }

  lemma {:induction false} FileRoundTrip(words: seq<Word>)
    ensures Decode(Encode(words)) == words
  {
    if words != [] {
      var file := Encode(words);
      BytesRoundTrip(words[0], 4);
      FileRoundTrip(words[1..]);
      assert file[..4] == BytesOf(words[0]) && file[4..] == Encode(words[1..]);
    }
  }

  /** A file cut short keeps its first whole words. */
  lemma {:induction false} Truncated(file: seq<Byte>, size: nat)
    requires size <= |file|
    ensures Decode(file[..size]) == Decode(file)[..size / 4]
  {
    if size >= 4 {
      Truncated(file[4..], size - 4);
      assert file[..size][..4] == file[..4] && file[..size][4..] == file[4..][..size - 4];
      assert size / 4 == (size - 4) / 4 + 1;
    }
  }

  lemma {:induction false} EncodeJoins(a: seq<Word>, b: seq<Word>)
    ensures Encode(a + b) == Encode(a) + Encode(b)
  {
    if a == [] {
      assert a + b == b;
    } else {
      EncodeJoins(a[1..], b);
      assert (a + b)[1..] == a[1..] + b;
      Regroup(BytesOf(a[0]), Encode(a[1..]), Encode(b));
    }
  }
}
