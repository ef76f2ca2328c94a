/** Bytes, the unsigned integers of the wire formats, and their big-endian codecs. */
module Bytes {

  type Byte = x: int | 0 <= x < 0x100
  type Ushort = x: int | 0 <= x < 0x1_0000
  type Uint = x: int | 0 <= x < 0x1_0000_0000

  const TWO32: int := 0x1_0000_0000
  const TWO64: int := 0x1_0000_0000_0000_0000
  const SIZE_SHA256: nat := 32

  function Be16(a: Ushort): (b: seq<Byte>)
    ensures |b| == 2
  {
    [a / 0x100, a % 0x100]
  }

  function Be32(a: Uint): (b: seq<Byte>)
    ensures |b| == 4
  {
    [a / 0x100_0000, a / 0x1_0000 % 0x100, a / 0x100 % 0x100, a % 0x100]
  }

  function Btous(b: seq<Byte>): Ushort
    requires |b| == 2
  {
    b[0] as int * 0x100 + b[1]
  }

  function Btoui(b: seq<Byte>): Uint
    requires |b| == 4
  {
    b[0] as int * 0x100_0000 + b[1] as int * 0x1_0000 + b[2] as int * 0x100 + b[3]
  }

  lemma UintReadsBack(a: Uint)
    ensures Btoui(Be32(a)) == a
  {
    assert a / 0x1_0000 == a / 0x100_0000 * 0x100 + a / 0x1_0000 % 0x100;
    assert a / 0x100 == a / 0x1_0000 * 0x100 + a / 0x100 % 0x100;
  }

  lemma UintWritesBack(b: seq<Byte>)
    requires |b| == 4
    ensures Be32(Btoui(b)) == b
  {
    var n := Btoui(b);
    LastByte(b[0] as int * 0x1_0000 + b[1] as int * 0x100 + b[2], b[3]);
    LastByte(b[0] as int * 0x100 + b[1], b[2]);
    LastByte(b[0], b[1]);
    assert n / 0x1_0000 == n / 0x100 / 0x100 && n / 0x100_0000 == n / 0x100 / 0x100 / 0x100;
  }

  lemma LastByte(q: nat, d: Byte)
    ensures (q * 0x100 + d) / 0x100 == q && (q * 0x100 + d) % 0x100 == d
  {
  }

  /** Reading back what was written, and writing back what was read. */
  lemma UintRoundTrip(a: Uint, b: seq<Byte>)
    requires |b| == 4
    ensures Btoui(Be32(a)) == a
    ensures Be32(Btoui(b)) == b
  {
    hide Be32, Btoui;
    UintReadsBack(a);
    UintWritesBack(b);
  }

  lemma UshortRoundTrip(a: Ushort, b: seq<Byte>)
    requires |b| == 2
    ensures Btous(Be16(a)) == a
    ensures Be16(Btous(b)) == b
  {
  }

  /** `s` with the bytes from `pos` replaced by `b`. */
  function Patch(s: seq<Byte>, pos: nat, b: seq<Byte>): (t: seq<Byte>)
    requires pos + |b| <= |s|
    ensures |t| == |s|
  {
    s[..pos] + b + s[pos + |b|..]
  }

  lemma PatchAt(s: seq<Byte>, pos: nat, b: seq<Byte>, i: nat)
    requires pos + |b| <= |s| && i < |s|
    ensures Patch(s, pos, b)[i] == if pos <= i < pos + |b| then b[i - pos] else s[i]
  {
  }

  /** Two adjacent writes are one. */
  lemma PatchTwice(s: seq<Byte>, pos: nat, a: seq<Byte>, b: seq<Byte>)
    requires pos + |a| + |b| <= |s|
    ensures Patch(Patch(s, pos, a), pos + |a|, b) == Patch(s, pos, a + b)
  {
  }

  method Ustob(a: Ushort, dest: array<Byte>, pos: nat)
    requires pos + 2 <= dest.Length
    modifies dest
    ensures dest[..] == Patch(old(dest[..]), pos, Be16(a))
  {
    dest[pos] := a / 0x100;
    dest[pos + 1] := a % 0x100;
  }

  method Uitob(a: Uint, dest: array<Byte>, pos: nat)
    requires pos + 4 <= dest.Length
    modifies dest
    ensures dest[..] == Patch(old(dest[..]), pos, Be32(a))
  {
    dest[pos] := a / 0x100_0000;
    dest[pos + 1] := a / 0x1_0000 % 0x100;
    dest[pos + 2] := a / 0x100 % 0x100;
    dest[pos + 3] := a % 0x100;
  }

  /** memcpy of a byte string into a buffer. */
  method CopyIn(from: seq<Byte>, dest: array<Byte>, pos: nat)
    requires pos + |from| <= dest.Length
    modifies dest
    ensures dest[..] == Patch(old(dest[..]), pos, from)
  {
    forall i | 0 <= i < |from| {
      dest[pos + i] := from[i];
    }
  }

  // ---------- Pieces one after the other ----------

  function Join(pieces: seq<seq<Byte>>): seq<Byte> {
    if pieces == [] then [] else pieces[0] + Join(pieces[1..])
  }

  lemma {:induction false} JoinLast(pieces: seq<seq<Byte>>, p: seq<Byte>)
    ensures Join(pieces + [p]) == Join(pieces) + p
  {
    if pieces == [] {
      assert pieces + [p] == [p] && Join([p]) == p + Join([]);
    } else {
      assert (pieces + [p])[1..] == pieces[1..] + [p];
      JoinLast(pieces[1..], p);
    }
  }
}
