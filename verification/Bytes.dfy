/** Byte sequences: the media that are read, the files that are written, and
    the little-endian fields decoded from them. */
module Bytes {

  type byte = x: int | 0 <= x < 256

  datatype Option<+T> = None | Some(value: T)

  const TWO_32 := 0x1_0000_0000
  const TWO_64 := 0x1_0000_0000_0000_0000

  /** The value a C++ `uint32_t` keeps of an exact result. */
  function U32(x: int): (r: nat)
    ensures r < TWO_32
  {
    x % TWO_32
  }

  /** The value a C++ `uint64_t` keeps of an exact result. */
  function U64(x: int): (r: nat)
    ensures r < TWO_64
  {
    x % TWO_64
  }

  function Word(b: seq<byte>, at: nat): (r: nat)
    requires at + 2 <= |b|
    ensures r < 0x1_0000
  {
    b[at] as int + 0x100 * b[at + 1] as int
  }

  function DWord(b: seq<byte>, at: nat): (r: nat)
    requires at + 4 <= |b|
    ensures r < TWO_32
  {
    Word(b, at) + 0x1_0000 * Word(b, at + 2)
  }

  /** The lowest `n` bytes of a number, lowest first. */
  function LittleEndian(x: nat, n: nat): (r: seq<byte>)
    ensures |r| == n
  {
    if n == 0 then [] else [x % 256] + LittleEndian(x / 256, n - 1)
  }

  lemma LowBytes(x: nat)
    ensures LittleEndian(x, 2) == [x % 256, x / 256 % 256]
    ensures LittleEndian(x, 4) == [x % 256, x / 256 % 256, x / 0x1_0000 % 256, x / 0x100_0000 % 256]
  {
    var y, z, t := x / 256, x / 0x1_0000, x / 0x100_0000;
    assert y / 256 == z && z / 256 == t;
    assert LittleEndian(t, 1) == [t % 256] + LittleEndian(t / 256, 0);
    assert LittleEndian(z, 2) == [z % 256] + LittleEndian(t, 1);
    assert LittleEndian(y, 3) == [y % 256] + LittleEndian(z, 2);
    assert LittleEndian(y, 1) == [y % 256] + LittleEndian(z, 0);
    hide LittleEndian;
  }

  /** Stored 16-bit and 32-bit numbers read back. */
  lemma WordBack(b: seq<byte>, at: nat, x: nat)
    requires x < 0x1_0000 && at + 2 <= |b| && b[at..at + 2] == LittleEndian(x, 2)
    ensures Word(b, at) == x
  {
    LowBytes(x);
    assert b[at..at + 2][0] == b[at] && b[at..at + 2][1] == b[at + 1];
  }

  lemma DWordBack(b: seq<byte>, at: nat, x: nat)
    requires x < TWO_32 && at + 4 <= |b| && b[at..at + 4] == LittleEndian(x, 4)
    ensures DWord(b, at) == x
  {
    LowBytes(x);
    var s := b[at..at + 4];
    assert s[0] == b[at] && s[1] == b[at + 1] && s[2] == b[at + 2] && s[3] == b[at + 3];
  }

  function Zeros(n: nat): (r: seq<byte>) {
    seq(n, _ => 0)
  }

  /** The bytes a successful read of `size` bytes at `position` delivers. A
      zero-length read and a read past the end are errors. */
  function ReadAt(media: seq<byte>, position: nat, size: nat): (r: Option<seq<byte>>) {
    if size > 0 && position + size <= |media| then Some(media[position..position + size]) else None
  }

  function Max(x: nat, y: nat): (r: nat) {
    if x < y then y else x
  }

  /** `media` after `data` is written at `at`; a gap before `at` is filled with zeros. */
  function Overwrite(media: seq<byte>, at: nat, data: seq<byte>): (r: seq<byte>)
    ensures |r| == Max(|media|, at + |data|)
    ensures forall p :: 0 <= p < |r| ==>
      r[p] == if at <= p < at + |data| then data[p - at] else if p < |media| then media[p] else 0
  {
    var base := if |media| < at then media + Zeros(at - |media|) else media;
    base[..at] + data + if at + |data| < |base| then base[at + |data|..] else []
  }

  /** `media` cut or zero-extended to `size` bytes. */
  function Resize(media: seq<byte>, size: nat): (r: seq<byte>)
    ensures |r| == size
    ensures forall p :: 0 <= p < size ==> r[p] == if p < |media| then media[p] else 0
  {
    if size <= |media| then media[..size] else media + Zeros(size - |media|)
  }

  lemma OverwriteEnd(media: seq<byte>, data: seq<byte>)
    ensures Overwrite(media, |media|, data) == media + data
  {
  }

  /** Two consecutive writes are one write of the concatenation. */
  lemma OverwriteConcat(media: seq<byte>, at: nat, first: seq<byte>, second: seq<byte>)
    ensures Overwrite(Overwrite(media, at, first), at + |first|, second) == Overwrite(media, at, first + second)
  {
    var l := Overwrite(Overwrite(media, at, first), at + |first|, second);
    var r := Overwrite(media, at, first + second);
    assert |l| == |r|;
    assert forall p :: 0 <= p < |r| ==> l[p] == r[p];
  }

  /** What was written is read back unchanged. */
  lemma ReadBack(media: seq<byte>, at: nat, data: seq<byte>)
    requires data != []
    ensures ReadAt(Overwrite(media, at, data), at, |data|) == Some(data)
  {
    assert Overwrite(media, at, data)[at..at + |data|] == data;
  }

  lemma SliceOfSlice<T>(s: seq<T>, at: nat, size: nat, from: nat, to: nat)
    requires from <= to <= size && at + size <= |s|
    ensures s[at..at + size][from..to] == s[at + from..at + to]
  {
    var inner := s[at..at + size];
    assert forall i :: from <= i < to ==> inner[i] == s[at + i];
  }

  function Concat<T>(parts: seq<seq<T>>): (r: seq<T>) {
    if parts == [] then [] else parts[0] + Concat(parts[1..])
  }

  lemma {:induction false} ConcatAppend<T>(a: seq<seq<T>>, b: seq<seq<T>>)
    ensures Concat(a + b) == Concat(a) + Concat(b)
  {
    if a == [] {
      assert a + b == b;
    } else {
      ConcatAppend(a[1..], b);
      assert (a + b)[0] == a[0] && (a + b)[1..] == a[1..] + b;
    }
  }

  lemma ConcatSnoc<T>(a: seq<seq<T>>, last: seq<T>)
    ensures Concat(a + [last]) == Concat(a) + last
  {
    ConcatAppend(a, [last]);
    assert Concat([last]) == last;
  }
}
