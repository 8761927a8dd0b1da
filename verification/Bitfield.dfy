/** The packed bit array of bitfield.go: most significant bit first, as in the
    bitfield message of BEP 3 ("peer messages"). */
module Bitfields {
  import opened Numbers

  /** The byte an index falls into; Go's division truncates, so -7..-1 fall into byte 0. */
  function ByteOf(idx: int): int {
    GoDiv(idx, 8)
  }

  /** The mask of an index inside its byte, most significant bit first. */
  function MaskOf(idx: int): bv8 {
    var j := idx % 8;
    if j == 0 then 0x80 else if j == 1 then 0x40 else if j == 2 then 0x20 else if j == 3 then 0x10
    else if j == 4 then 0x08 else if j == 5 then 0x04 else if j == 6 then 0x02 else 0x01
  }

  /** It is 0x80 shifted right by `uint(idx) & 7`, the remainder modulo 8, for negative indices too. */
  lemma MaskIsShift(idx: int)
    ensures MaskOf(idx) == (0x80 as bv8) >> (idx % 8)
  {
  }

  /** The bit position that `SetBit` and `GetBit` really touch for an index. */
  function Slot(idx: int): (k: int)
    ensures idx >= 0 ==> k == idx
    ensures -8 < idx < 0 ==> k == idx + 8
  {
    8 * ByteOf(idx) + idx % 8
  }

  predicate BitAt(b: seq<bv8>, k: nat)
    requires k < 8 * |b|
  {
    b[k / 8] & MaskOf(k) != 0
  }

  /** The sequence of booleans that the bytes stand for. */
  function Bits(b: seq<bv8>): (s: seq<bool>)
    ensures |s| == 8 * |b|
    ensures forall k: nat :: k < |s| ==> s[k] == BitAt(b, k)
  {
    seq(8 * |b|, k requires 0 <= k < 8 * |b| => BitAt(b, k))
  }

  /** Setting on booleans: one in-range element changes, an out-of-range write does nothing. */
  function Put(s: seq<bool>, k: int, value: bool): (r: seq<bool>)
    ensures |r| == |s|
  {
    if 0 <= k < |s| then s[k := value] else s
  }

  /** The bytes after a `SetBit`. */
  function WithBit(b: seq<bv8>, idx: int, value: bool): (r: seq<bv8>)
    requires idx > -8
    ensures |r| == |b|
  {
    if ByteOf(idx) >= |b| then b
    else if value then b[ByteOf(idx) := b[ByteOf(idx)] | MaskOf(idx)]
    else b[ByteOf(idx) := b[ByteOf(idx)] & !MaskOf(idx)]
  }

  /** Go panics on an index of -8 or below; every other index is served. */
  method SetBit(b: array<bv8>, idx: int, value: bool)
    requires idx > -8
    modifies b
    ensures b[..] == WithBit(old(b[..]), idx, value)
    ensures Bits(b[..]) == Put(old(Bits(b[..])), Slot(idx), value)
  {
    WithBitSetsOneBit(b[..], idx, value);
    if GoDiv(idx, 8) >= b.Length {
      return;
    }
    if value {
      b[GoDiv(idx, 8)] := b[GoDiv(idx, 8)] | MaskOf(idx);
    } else {
      b[GoDiv(idx, 8)] := b[GoDiv(idx, 8)] & !MaskOf(idx);
    }
  }

  method GetBit(b: array<bv8>, idx: int) returns (bit: bool)
    requires idx > -8
    ensures bit <==> Slot(idx) < 8 * b.Length && Bits(b[..])[Slot(idx)]
  {
    if GoDiv(idx, 8) >= b.Length {
      return false;
    }
    return b[GoDiv(idx, 8)] & MaskOf(idx) != 0;
  }

  method String(b: array<bv8>) returns (s: string)
    ensures |s| == 8 * b.Length && forall k :: 0 <= k < |s| ==> s[k] == if Bits(b[..])[k] then '1' else '0'
    ensures s == Render(Bits(b[..]))
    ensures Parse(s) == b[..]
  {
    s := "";
    for i := 0 to b.Length * 8
      invariant |s| == i
      invariant forall k :: 0 <= k < i ==> s[k] == Digit(Bits(b[..])[k])
    {
      var bit := GetBit(b, i);
      s := s + (if bit then "1" else "0");
    }
    StringIsInvertible(b[..]);
  }

  function Digit(bit: bool): char { if bit then '1' else '0' }

  function Render(s: seq<bool>): (t: string)
    ensures |t| == |s|
    ensures forall k :: 0 <= k < |s| ==> t[k] == Digit(s[k])
  {
    seq(|s|, k requires 0 <= k < |s| => Digit(s[k]))
  }

  /** One byte read back from eight digits. */
  function ParseByte(t: string): bv8
    requires |t| == 8
  {
    (if t[0] == '1' then 0x80 else 0) | (if t[1] == '1' then 0x40 else 0)
    | (if t[2] == '1' then 0x20 else 0) | (if t[3] == '1' then 0x10 else 0)
    | (if t[4] == '1' then 0x08 else 0) | (if t[5] == '1' then 0x04 else 0)
    | (if t[6] == '1' then 0x02 else 0) | (if t[7] == '1' then 0x01 else 0)
  }

  function Parse(t: string): (b: seq<bv8>)
    ensures |b| == |t| / 8
  {
    seq(|t| / 8, i requires 0 <= i < |t| / 8 => ParseByte(t[8 * i..8 * i + 8]))
  }

  /** Or-ing a mask in, or and-ing its complement, touches the one bit of that mask. */
  lemma MaskTouchesOneBit(x: bv8, i: nat, j: nat)
    requires i < 8 && j < 8
    ensures ((x | MaskOf(i)) & MaskOf(j) != 0) == (i == j || x & MaskOf(j) != 0)
    ensures ((x & !MaskOf(i)) & MaskOf(j) != 0) == (i != j && x & MaskOf(j) != 0)
  {
  }

  lemma MaskRepeats(idx: int)
    ensures MaskOf(idx) == MaskOf(idx % 8)
  {
  }

  lemma SlotIsByteAndBit(idx: int, k: nat)
    requires idx > -8
    ensures k == Slot(idx) <==> k / 8 == ByteOf(idx) && k % 8 == idx % 8
  {
  }

  lemma BitIsMasked(b: seq<bv8>, k: nat)
    requires k < 8 * |b|
    ensures BitAt(b, k) == (b[k / 8] & MaskOf(k % 8) != 0)
  {
    MaskRepeats(k);
  }

  lemma WithBitHere(b: seq<bv8>, idx: int, value: bool, k: nat, i: nat, j: nat)
    requires idx > -8 && k < 8 * |b| && k / 8 == ByteOf(idx) && i == idx % 8 && j == k % 8
    ensures BitAt(WithBit(b, idx, value), k) == if i == j then value else BitAt(b, k)
  {
    BitIsMasked(b, k);
    BitIsMasked(WithBit(b, idx, value), k);
    MaskRepeats(idx);
    MaskTouchesOneBit(b[k / 8], i, j);
  }

  lemma WithBitAt(b: seq<bv8>, idx: int, value: bool, k: nat)
    requires idx > -8 && k < 8 * |b|
    ensures BitAt(WithBit(b, idx, value), k) == if k == Slot(idx) then value else BitAt(b, k)
  {
    SlotIsByteAndBit(idx, k);
    if k / 8 == ByteOf(idx) {
      WithBitHere(b, idx, value, k, idx % 8, k % 8);
    }
  }

  /** `SetBit` updates exactly one logical bit: its neighbours in the same byte stay. */
  lemma WithBitSetsOneBit(b: seq<bv8>, idx: int, value: bool)
    requires idx > -8
    ensures Bits(WithBit(b, idx, value)) == Put(Bits(b), Slot(idx), value)
    ensures forall k: nat :: k < 8 * |b| ==>
              Bits(WithBit(b, idx, value))[k] == if k == (if idx >= 0 then idx else idx + 8) then value else Bits(b)[k]
  {
    forall k: nat | k < 8 * |b|
      ensures BitAt(WithBit(b, idx, value), k) == if k == Slot(idx) then value else BitAt(b, k)
    {
      WithBitAt(b, idx, value, k);
    }
  }

  /** A write: index and value. */
  datatype Write = Write(idx: int, value: bool)

  function WriteAll(b: seq<bv8>, ws: seq<Write>): (r: seq<bv8>)
    requires forall w :: w in ws ==> w.idx > -8
    ensures |r| == |b|
    decreases ws
  {
    if ws == [] then b else WriteAll(WithBit(b, ws[0].idx, ws[0].value), ws[1..])
  }

  function PutAll(s: seq<bool>, ws: seq<Write>): (r: seq<bool>)
    ensures |r| == |s|
    decreases ws
  {
    if ws == [] then s else PutAll(Put(s, Slot(ws[0].idx), ws[0].value), ws[1..])
  }

  /** Over any series of writes the bytes refine the booleans. */
  lemma {:induction false} BitfieldRefinesBooleans(b: seq<bv8>, ws: seq<Write>)
    requires forall w :: w in ws ==> w.idx > -8
    ensures Bits(WriteAll(b, ws)) == PutAll(Bits(b), ws)
    decreases ws
  {
    if ws != [] {
      WithBitSetsOneBit(b, ws[0].idx, ws[0].value);
      BitfieldRefinesBooleans(WithBit(b, ws[0].idx, ws[0].value), ws[1..]);
    }
  }

  /** After a series of writes a bit is what the last write to it made it, or what it was. */
  lemma {:induction false} LastWriteStands(b: seq<bv8>, ws: seq<Write>, k: nat)
    requires k < 8 * |b| && forall w :: w in ws ==> w.idx > -8
    ensures var after := Bits(WriteAll(b, ws))[k];
            && ((forall i :: 0 <= i < |ws| ==> Slot(ws[i].idx) != k) ==> after == Bits(b)[k])
            && forall i :: 0 <= i < |ws| && Slot(ws[i].idx) == k && (forall j :: i < j < |ws| ==> Slot(ws[j].idx) != k) ==>
                 after == ws[i].value
    decreases ws
  {
    if ws != [] {
      var rest := ws[1..];
      WithBitSetsOneBit(b, ws[0].idx, ws[0].value);
      LastWriteStands(WithBit(b, ws[0].idx, ws[0].value), rest, k);
      assert forall i :: 0 <= i < |rest| ==> rest[i] == ws[i + 1];
    }
  }

  /** The logical index of a write is its own index exactly when that is not negative:
      -7..-1 alias bits 1..7 of the first byte. */
  lemma NegativeIndicesAlias(b: seq<bv8>, idx: int, value: bool)
    requires idx > -8 && |b| > 0
    ensures Bits(WithBit(b, idx, value)) == Put(Bits(b), idx, value)
       <==> idx >= 0 || BitAt(b, (idx + 8) as nat) == value
  {
    WithBitSetsOneBit(b, idx, value);
    if idx < 0 {
      assert Put(Bits(b), Slot(idx), value)[idx + 8] == value;
      if BitAt(b, idx + 8) == value {
        assert Put(Bits(b), Slot(idx), value) == Bits(b);
      }
    }
  }

  /** A byte is the digits of its eight bits. */
  lemma ByteIsItsDigits(x: bv8, t: string)
    requires |t| == 8
    requires forall j: nat :: j < 8 ==> t[j] == Digit(x & MaskOf(j) != 0)
    ensures ParseByte(t) == x
  {
    assert t[0] == Digit(x & MaskOf(0) != 0) && t[1] == Digit(x & MaskOf(1) != 0);
    assert t[2] == Digit(x & MaskOf(2) != 0) && t[3] == Digit(x & MaskOf(3) != 0);
    assert t[4] == Digit(x & MaskOf(4) != 0) && t[5] == Digit(x & MaskOf(5) != 0);
    assert t[6] == Digit(x & MaskOf(6) != 0) && t[7] == Digit(x & MaskOf(7) != 0);
  }

  lemma BitOfByte(b: seq<bv8>, i: nat, j: nat)
    requires i < |b| && j < 8
    ensures BitAt(b, 8 * i + j) == (b[i] & MaskOf(j) != 0)
  {
    BitIsMasked(b, 8 * i + j);
  }

  lemma ByteReadsBack(b: seq<bv8>, i: nat)
    requires i < |b|
    ensures ParseByte(Render(Bits(b))[8 * i..8 * i + 8]) == b[i]
  {
    var t := Render(Bits(b));
    var d := t[8 * i..8 * i + 8];
    forall j: nat | j < 8
      ensures d[j] == Digit(b[i] & MaskOf(j) != 0)
    {
      BitOfByte(b, i, j);
      assert d[j] == t[8 * i + j];
    }
    ByteIsItsDigits(b[i], d);
  }

  /** Reading the string back gives the bytes, so equal strings mean equal bytes. */
  lemma StringIsInvertible(b: seq<bv8>)
    ensures Parse(Render(Bits(b))) == b
  {
    forall i: nat | i < |b|
      ensures Parse(Render(Bits(b)))[i] == b[i]
    {
      ByteReadsBack(b, i);
    }
  }
}
