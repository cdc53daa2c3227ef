/** LuaHttpScanfReader of src/lua/module/lua_http_reader.cpp: cutting the filled buffer into the fields of
    a format and pushing their values, against a sender that wrote the values.  The host is taken to be
    little-endian, where ntohs and ntohl reverse the bytes of a word. */
module ScanReader {
  import opened Machine

  datatype Type = Int8 | Uint8 | Int16 | Uint16 | Int32 | Uint32 | Int64 | Uint64 | Double | ByteArray | CharArray

  /** `length` counts values of a number type, and bytes of an array. */
  datatype Field = Field(t: Type, length: nat, hton: bool)

  /** What is pushed: an integer, the eight bytes of a double, or a string. */
  datatype Value = Number(n: int) | Real(bits: seq<byte>) | Text(bytes: seq<byte>)

  function SizeOf(t: Type): (k: nat) {
    match t
    case Int8 | Uint8 | ByteArray | CharArray => 1
    case Int16 | Uint16 => 2
    case Int32 | Uint32 => 4
    case Int64 | Uint64 | Double => 8
  }

  predicate IsArray(t: Type) { t == ByteArray || t == CharArray }

  predicate IsLong(t: Type) { t == Int64 || t == Uint64 }

  predicate IsSigned(t: Type) { t == Int8 || t == Int16 || t == Int32 || t == Int64 }

  function Times(k: nat, n: nat): nat {
    if n == 0 then 0 else k + Times(k, n - 1)
  }

  function Room(f: Field): nat {
    if IsArray(f.t) then f.length else Times(SizeOf(f.t), f.length)
  }

  function TotalSize(format: seq<Field>): nat {
    if format == [] then 0 else Room(format[0]) + TotalSize(format[1..])
  }

  // ---------------------------------------------------------------- byte order

  function Pow256(k: nat): (p: nat)
    ensures p > 0
  {
    if k == 0 then 1 else 0x100 * Pow256(k - 1)
  }

  /** The number whose bytes in memory are `b`, on a little-endian host. */
  function Load(b: seq<byte>): nat {
    if b == [] then 0 else b[0] + 0x100 * Load(b[1..])
  }

  function ToLittle(n: nat, k: nat): (b: seq<byte>)
    ensures |b| == k
  {
    if k == 0 then [] else [n % 0x100] + ToLittle(n / 0x100, k - 1)
  }

  /** The number written with its most significant byte first. */
  function Big(b: seq<byte>): nat {
    if b == [] then 0 else 0x100 * Big(b[..|b| - 1]) + b[|b| - 1]
  }

  function ToBig(n: nat, k: nat): (b: seq<byte>)
    ensures |b| == k
  {
    if k == 0 then []
    else
      var last: byte := n % 0x100;
      ToBig(n / 0x100, k - 1) + [last]
  }

  lemma {:induction false} LoadToLittle(n: nat, k: nat)
    requires n < Pow256(k)
    ensures Load(ToLittle(n, k)) == n
  {
    if k > 0 {
      LoadToLittle(n / 0x100, k - 1);
      assert ToLittle(n, k)[1..] == ToLittle(n / 0x100, k - 1);
    }
  }

  lemma {:induction false} BigToBig(n: nat, k: nat)
    requires n < Pow256(k)
    ensures Big(ToBig(n, k)) == n
  {
    if k > 0 {
      BigToBig(n / 0x100, k - 1);
      assert ToBig(n, k)[..k - 1] == ToBig(n / 0x100, k - 1);
    }
  }

  /** ntohs and ntohl: reverses the k bytes of a word. */
  function Reversed(v: nat, k: nat): nat {
    Big(ToLittle(v, k))
  }

  /** _ntohll as it is written: each half is reversed and stays where it is. */
  function Swap64(v: nat): nat {
    Reversed(v / WORD_MODULUS, 4) * WORD_MODULUS + Reversed(v % WORD_MODULUS, 4)
  }

  lemma LowByte(low: byte, high: nat)
    ensures (low + 0x100 * high) % 0x100 == low && (low + 0x100 * high) / 0x100 == high
  {
  }

  lemma {:induction false} ToLittleLoad(b: seq<byte>)
    ensures ToLittle(Load(b), |b|) == b && Load(b) < Pow256(|b|)
  {
    if b != [] {
      ToLittleLoad(b[1..]);
      LowByte(b[0], Load(b[1..]));
      assert b == [b[0]] + b[1..];
    }
  }

  lemma {:induction false} BigBound(b: seq<byte>)
    ensures Big(b) < Pow256(|b|)
  {
    if b != [] {
      BigBound(b[..|b| - 1]);
    }
  }

  /** `v` moved up by k bytes. */
  function Shifted(v: nat, k: nat): nat {
    if k == 0 then v else 0x100 * Shifted(v, k - 1)
  }

  lemma ShiftedWord(v: nat)
    ensures Shifted(v, 4) == WORD_MODULUS * v
  {
    assert Shifted(v, 2) == 0x100 * Shifted(v, 1);
    assert Shifted(v, 3) == 0x100 * Shifted(v, 2);
  }

  lemma {:induction false} LoadConcat(a: seq<byte>, b: seq<byte>)
    ensures Load(a + b) == Load(a) + Shifted(Load(b), |a|)
  {
    if a == [] {
      assert a + b == b;
    } else {
      LoadConcat(a[1..], b);
      assert (a + b)[1..] == a[1..] + b;
    }
  }

  lemma {:induction false} BigConcat(a: seq<byte>, b: seq<byte>)
    ensures Big(a + b) == Shifted(Big(a), |b|) + Big(b)
  {
    if b == [] {
      assert a + b == a;
    } else {
      BigConcat(a, b[..|b| - 1]);
      assert (a + b)[..|a + b| - 1] == a + b[..|b| - 1];
    }
  }

  lemma Halves(low: nat, high: nat)
    requires low < WORD_MODULUS
    ensures (low + WORD_MODULUS * high) / WORD_MODULUS == high && (low + WORD_MODULUS * high) % WORD_MODULUS == low
  {
  }

  /** The halves of a number written most significant byte first come out exchanged. */
  lemma Exchanged(v: nat, low: nat, high: nat, first: nat, second: nat)
    requires v == low + WORD_MODULUS * high && low < WORD_MODULUS && first < WORD_MODULUS && second < WORD_MODULUS
    requires Reversed(low, 4) == first && Reversed(high, 4) == second
    ensures Swap64(v) == second * WORD_MODULUS + first
    ensures Swap64(v) % WORD_MODULUS == (WORD_MODULUS * first + second) / WORD_MODULUS
  {
    Halves(low, high);
    Halves(first, second);
    Halves(second, first);
  }

  lemma WordReversed(b: seq<byte>)
    requires |b| == 4
    ensures Load(b) < WORD_MODULUS && Big(b) < WORD_MODULUS && Reversed(Load(b), 4) == Big(b)
  {
    Sizes();
    ToLittleLoad(b);
    BigBound(b);
  }

  lemma TwoWords(a: seq<byte>, b: seq<byte>)
    requires |a| == |b| == 4
    ensures Load(a + b) == Load(a) + WORD_MODULUS * Load(b) && Big(a + b) == WORD_MODULUS * Big(a) + Big(b)
  {
    LoadConcat(a, b);
    BigConcat(a, b);
    ShiftedWord(Load(b));
    ShiftedWord(Big(a));
  }

  lemma Sizes()
    ensures Pow256(1) == 0x100 && Pow256(2) == 0x1_0000 && Pow256(4) == WORD_MODULUS
    ensures Pow256(8) == WORD_MODULUS * WORD_MODULUS
  {
    assert Pow256(2) == 0x100 * Pow256(1);
    assert Pow256(3) == 0x100 * Pow256(2);
    assert Pow256(4) == 0x100 * Pow256(3);
    assert Pow256(5) == 0x100 * Pow256(4);
    assert Pow256(6) == 0x100 * Pow256(5);
    assert Pow256(7) == 0x100 * Pow256(6);
  }

  /** Reversing undoes network order. */
  lemma NetworkOrder(p: nat, k: nat)
    requires p < Pow256(k)
    ensures Reversed(Load(ToBig(p, k)), k) == p
  {
    ToLittleLoad(ToBig(p, k));
    BigToBig(p, k);
  }

  lemma OneByte(p: nat)
    ensures p < 0x100 ==> Load(ToBig(p, 1)) == p
  {
    assert ToBig(p, 1) == ToBig(p / 0x100, 0) + [p % 0x100];
    assert ToBig(p, 1)[1..] == [];
  }

  /** The 64-bit version yields the high word as its low word. */
  lemma LongNetworkOrder(p: nat)
    requires p < Pow256(8)
    ensures Swap64(Load(ToBig(p, 8))) % WORD_MODULUS == p / WORD_MODULUS
  {
    var b := ToBig(p, 8);
    var high, low := b[..4], b[4..];
    BigToBig(p, 8);
    assert b == high + low;
    TwoWords(high, low);
    WordReversed(high);
    WordReversed(low);
    Exchanged(Load(b), Load(high), Load(low), Big(high), Big(low));
  }

  // ---------------------------------------------------------------- what is pushed

  /** One value of a number type, from its bytes. */
  function Pushed(t: Type, hton: bool, b: seq<byte>): Value {
    if t == Double then Real(b)
    else
      var v := Load(b);
      match SizeOf(t)
      case 1 => Number(v)
      case 2 => Number(if hton then Reversed(v, 2) else v)
      case 4 => Number(if hton then Reversed(v, 4) else v)
      case _ => Number((if hton then Swap64(v) else v) % WORD_MODULUS)
  }

  /** The bytes before the first NUL. */
  function Chars(b: seq<byte>): seq<byte> {
    if b == [] || b[0] == 0 then [] else [b[0]] + Chars(b[1..])
  }

  function PushedAll(t: Type, hton: bool, n: nat, b: seq<byte>): (values: seq<Value>)
    requires |b| == Times(SizeOf(t), n)
    ensures |values| == n
  {
    if n == 0 then [] else [Pushed(t, hton, b[..SizeOf(t)])] + PushedAll(t, hton, n - 1, b[SizeOf(t)..])
  }

  function ScannedField(f: Field, b: seq<byte>): seq<Value>
    requires |b| == Room(f)
  {
    match f.t
    case ByteArray => [Text(b)]
    case CharArray => [Text(Chars(b))]
    case _ => PushedAll(f.t, f.hton, f.length, b)
  }

  function Scanned(format: seq<Field>, b: seq<byte>): seq<Value>
    requires |b| == TotalSize(format)
  {
    if format == [] then []
    else ScannedField(format[0], b[..Room(format[0])]) + Scanned(format[1..], b[Room(format[0])..])
  }

  lemma Cut(b: seq<byte>, i: nat, j: nat, k: nat)
    requires i <= j <= k <= |b|
    ensures b[i..k][..j - i] == b[i..j] && b[i..k][j - i..] == b[j..k]
  {
  }

  // One value, one field, from the front of what is left.

  lemma PushedFirst(t: Type, hton: bool, n: nat, b: seq<byte>)
    requires n > 0 && |b| == Times(SizeOf(t), n)
    ensures var k := SizeOf(t);
            && k <= |b| && |b[k..]| == Times(k, n - 1)
            && PushedAll(t, hton, n, b) == [Pushed(t, hton, b[..k])] + PushedAll(t, hton, n - 1, b[k..])
  {
  }

  /** After `values`, the `n` numbers in `b` make up `whole`. */
  predicate PushesTo(f: Field, n: nat, b: seq<byte>, values: seq<Value>, whole: seq<Value>) {
    |b| == Times(SizeOf(f.t), n) && values + PushedAll(f.t, f.hton, n, b) == whole
  }

  lemma NumberPushed(values: seq<Value>, value: Value, f: Field, n: nat, b: seq<byte>, whole: seq<Value>)
    requires n > 0 && PushesTo(f, n, b, values, whole) && SizeOf(f.t) <= |b|
    requires value == Pushed(f.t, f.hton, b[..SizeOf(f.t)])
    ensures PushesTo(f, n - 1, b[SizeOf(f.t)..], values + [value], whole)
  {
    PushedFirst(f.t, f.hton, n, b);
    Regroup(values, [value], PushedAll(f.t, f.hton, n - 1, b[SizeOf(f.t)..]));
  }

  lemma AllPushed(values: seq<Value>, f: Field, b: seq<byte>, whole: seq<Value>)
    requires PushesTo(f, 0, b, values, whole)
    ensures b == [] && values == whole
  {
  }

  lemma ScannedFirst(format: seq<Field>, b: seq<byte>)
    requires format != [] && |b| == TotalSize(format)
    ensures var n := Room(format[0]);
            && n <= |b| && |b[n..]| == TotalSize(format[1..])
            && Scanned(format, b) == ScannedField(format[0], b[..n]) + Scanned(format[1..], b[n..])
  {
  }

  /** After `values`, the fields `left` in `b` make up `whole`. */
  predicate ScansTo(left: seq<Field>, b: seq<byte>, values: seq<Value>, whole: seq<Value>) {
    |b| == TotalSize(left) && values + Scanned(left, b) == whole
  }

  lemma FieldScanned(values: seq<Value>, more: seq<Value>, left: seq<Field>, b: seq<byte>, whole: seq<Value>)
    requires left != [] && ScansTo(left, b, values, whole) && Room(left[0]) <= |b|
    requires more == ScannedField(left[0], b[..Room(left[0])])
    ensures ScansTo(left[1..], b[Room(left[0])..], values + more, whole)
  {
    ScannedFirst(left, b);
    Regroup(values, more, Scanned(left[1..], b[Room(left[0])..]));
  }

  lemma AllScanned(values: seq<Value>, left: seq<Field>, b: seq<byte>, whole: seq<Value>)
    requires left == [] && ScansTo(left, b, values, whole)
    ensures b == [] && values == whole
  {
  }

  class LuaHttpScanfReader {
    const buff: seq<byte>
    var readPos: nat

    predicate Valid()
      reads this
    {
      readPos <= |buff|
    }

    constructor (buff: seq<byte>)
      ensures Valid() && this.buff == buff && readPos == 0
    {
      this.buff, readPos := buff, 0;
    }

    /** Hands out the next bytes, fewer at the end of the buffer. */
    method ReadData(len: nat) returns (dst: seq<byte>)
      requires Valid()
      modifies this`readPos
      ensures Valid() && buff[..old(readPos)] + dst == buff[..readPos]
      ensures |dst| == Min(len, |buff| - old(readPos))
    {
      dst := [];
      if |buff| == 0 || len == 0 || readPos >= |buff| {
        return;
      }
      var left := |buff| - readPos;
      var n := Min(len, left);
      dst := buff[readPos..readPos + n];
      readPos := readPos + n;
    }

    method ReadWhole(len: nat) returns (dst: seq<byte>)
      requires Valid() && readPos + len <= |buff|
      modifies this`readPos
      ensures Valid() && readPos == old(readPos) + len && dst == buff[old(readPos)..readPos]
    {
      ghost var at := readPos;
      dst := ReadData(len);
      assert |buff[..at] + dst| == |buff[..readPos]|;
      assert dst == (buff[..at] + dst)[at..] == buff[..readPos][at..];
    }

    method ScanNumber(t: Type, hton: bool) returns (value: Value)
      requires Valid() && readPos + SizeOf(t) <= |buff|
      modifies this`readPos
      ensures Valid() && readPos == old(readPos) + SizeOf(t)
      ensures value == Pushed(t, hton, buff[old(readPos)..readPos])
    {
      var size := SizeOf(t);
      var b := ReadWhole(size);
      if t == Double {
        return Real(b);
      }
      var v := Load(b);
      if hton {
        v := if size == 2 then Reversed(v, 2) else if size == 4 then Reversed(v, 4) else if size == 8 then Swap64(v) else v;
      }
      value := Number(if size == 8 then v % WORD_MODULUS else v);
    }

    /** The next of the `n` numbers that lie before `end`. */
    method NextNumber(f: Field, ghost end: nat, ghost n: nat, ghost values: seq<Value>, ghost whole: seq<Value>)
      returns (value: Value)
      requires Valid() && readPos <= end <= |buff| && n > 0 && PushesTo(f, n, buff[readPos..end], values, whole)
      modifies this`readPos
      ensures Valid() && readPos <= end && PushesTo(f, n - 1, buff[readPos..end], values + [value], whole)
    {
      ghost var at, bytes := readPos, buff[readPos..end];
      PushedFirst(f.t, f.hton, n, bytes);
      value := ScanNumber(f.t, f.hton);
      Cut(buff, at, readPos, end);
      NumberPushed(values, value, f, n, bytes, whole);
    }

    /** The values of one field of a number type. */
    method ScanNumbers(f: Field) returns (values: seq<Value>)
      requires Valid() && !IsArray(f.t) && readPos + Room(f) <= |buff|
      modifies this`readPos
      ensures Valid() && readPos == old(readPos) + Room(f)
      ensures values == ScannedField(f, buff[old(readPos)..readPos])
    {
      values := [];
      ghost var end := readPos + Room(f);
      ghost var whole := PushedAll(f.t, f.hton, f.length, buff[readPos..end]);
      for i := 0 to f.length
        invariant Valid() && readPos <= end <= |buff|
        invariant PushesTo(f, f.length - i, buff[readPos..end], values, whole)
      {
        var value := NextNumber(f, end, f.length - i, values, whole);
        values := values + [value];
      }
      AllPushed(values, f, buff[readPos..end], whole);
    }

    method ScanField(f: Field) returns (values: seq<Value>)
      requires Valid() && readPos + Room(f) <= |buff|
      modifies this`readPos
      ensures Valid() && readPos == old(readPos) + Room(f)
      ensures values == ScannedField(f, buff[old(readPos)..readPos])
    {
      if f.t == ByteArray {
        var b := ReadWhole(f.length);
        values := [Text(b)];
      } else if f.t == CharArray {
        var b := ReadWhole(f.length);
        values := [Text(Chars(b))];
      } else {
        values := ScanNumbers(f);
      }
    }

    /** The next of the fields that lie before `end`. */
    method NextField(ghost left: seq<Field>, f: Field, ghost end: nat, ghost values: seq<Value>, ghost whole: seq<Value>)
      returns (more: seq<Value>)
      requires Valid() && readPos <= end <= |buff| && left != [] && left[0] == f && ScansTo(left, buff[readPos..end], values, whole)
      modifies this`readPos
      ensures Valid() && readPos <= end && ScansTo(left[1..], buff[readPos..end], values + more, whole)
    {
      ghost var at, bytes := readPos, buff[readPos..end];
      ScannedFirst(left, bytes);
      more := ScanField(f);
      Cut(buff, at, readPos, end);
      FieldScanned(values, more, left, bytes, whole);
    }

    /** `count` is what the reader resumes its coroutine with: the number of fields. */
    method Scanf(format: seq<Field>) returns (values: seq<Value>, count: nat)
      requires Valid() && readPos + TotalSize(format) <= |buff|
      modifies this`readPos
      ensures Valid() && readPos == old(readPos) + TotalSize(format) && count == |format|
      ensures values == Scanned(format, buff[old(readPos)..readPos])
    {
      values, count := [], 0;
      ghost var end, left := readPos + TotalSize(format), format;
      ghost var whole := Scanned(left, buff[readPos..end]);
      while count < |format|
        invariant count <= |format| && left == format[count..] && Valid() && readPos <= end <= |buff|
        invariant ScansTo(left, buff[readPos..end], values, whole)
      {
        var more := NextField(left, format[count], end, values, whole);
        values := values + more;
        count := count + 1;
        left := left[1..];
      }
      AllScanned(values, left, buff[readPos..end], whole);
    }
  }

  /** Every type in memory: how many bytes it takes, and what they are worth in either byte order. */
  lemma InMemory(a: byte, b: byte, c: byte, d: byte, hton: bool)
    ensures SizeOf(Int8) == SizeOf(Uint8) == SizeOf(ByteArray) == SizeOf(CharArray) == 1
    ensures SizeOf(Int16) == SizeOf(Uint16) == 2 && SizeOf(Int32) == SizeOf(Uint32) == 4
    ensures SizeOf(Int64) == SizeOf(Uint64) == SizeOf(Double) == 8
    ensures forall t :: t == Int8 || t == Uint8 ==> Pushed(t, hton, [a]) == Number(a)
    ensures forall t :: t == Int16 || t == Uint16 ==>
              Pushed(t, hton, [a, b]) == Number(if hton then Value2(b, a) else Value2(a, b))
    ensures forall t :: t == Int32 || t == Uint32 ==>
              Pushed(t, hton, [a, b, c, d]) == Number(if hton then Value4(d, c, b, a) else Value4(a, b, c, d))
  {
    Load4(a, b, c, d);
    assert Load([a, b]) == Value2(a, b) by { Load2(a, b); }
    assert [a][1..] == [] && Load([a]) == a + 0x100 * Load([]);
    ReversedLoad([a, b]);
    ReversedLoad([a, b, c, d]);
    Big4(a, b, c, d);
  }

  /** A word from its bytes, least significant first. */
  function Value2(a: byte, b: byte): nat {
    a + b * 0x100
  }

  function Value4(a: byte, b: byte, c: byte, d: byte): nat {
    a + b * 0x100 + c * 0x1_0000 + d * 0x100_0000
  }

  lemma Load2(a: byte, b: byte)
    ensures Load([a, b]) == Value2(a, b)
  {
    assert [a, b][1..] == [b] && [b][1..] == [];
    assert Load([b]) == b + 0x100 * Load([]);
  }

  lemma Load4(a: byte, b: byte, c: byte, d: byte)
    ensures Load([a, b, c, d]) == Value4(a, b, c, d)
  {
    assert [a, b, c, d][1..] == [b, c, d] && [b, c, d][1..] == [c, d];
    Load2(c, d);
    assert Load([b, c, d]) == b + 0x100 * Load([c, d]);
  }

  lemma ReversedLoad(b: seq<byte>)
    ensures Reversed(Load(b), |b|) == Big(b)
  {
    ToLittleLoad(b);
  }

  lemma Big4(a: byte, b: byte, c: byte, d: byte)
    ensures Big([a, b]) == Value2(b, a) && Big([a, b, c, d]) == Value4(d, c, b, a)
  {
    assert [a, b][..1] == [a] && [a][..0] == [];
    assert Big([a]) == 0x100 * Big([]) + a;
    assert [a, b, c, d][..3] == [a, b, c] && [a, b, c][..2] == [a, b];
    assert Big([a, b, c]) == 0x100 * Big([a, b]) + c;
  }

  // ---------------------------------------------------------------- the sender

  /** A value its field can hold: numbers in the range of the type. */
  predicate Holds(t: Type, v: Value) {
    if t == Double then v.Real? && |v.bits| == 8
    else
      && v.Number?
      && if IsSigned(t) then 0 <= 2 * v.n + Pow256(SizeOf(t)) < 2 * Pow256(SizeOf(t)) else 0 <= v.n < Pow256(SizeOf(t))
  }

  predicate HoldsAll(t: Type, values: seq<Value>) {
    values == [] || (Holds(t, values[0]) && HoldsAll(t, values[1..]))
  }

  predicate Fills(f: Field, values: seq<Value>) {
    if IsArray(f.t) then |values| == 1 && values[0].Text? && |values[0].bytes| == f.length
    else |values| == f.length && HoldsAll(f.t, values)
  }

  predicate FillsAll(format: seq<Field>, rows: seq<seq<Value>>) {
    |rows| == |format| && (format == [] || (Fills(format[0], rows[0]) && FillsAll(format[1..], rows[1..])))
  }

  /** Two's complement. */
  function Pattern(t: Type, n: int): nat
    requires Holds(t, Number(n))
  {
    if n < 0 then n + Pow256(SizeOf(t)) else n
  }

  function Written(t: Type, hton: bool, v: Value): (b: seq<byte>)
    requires Holds(t, v)
    ensures |b| == SizeOf(t)
  {
    if t == Double then v.bits
    else if hton then ToBig(Pattern(t, v.n), SizeOf(t))
    else ToLittle(Pattern(t, v.n), SizeOf(t))
  }

  function WrittenAll(t: Type, hton: bool, values: seq<Value>): (b: seq<byte>)
    requires HoldsAll(t, values)
    ensures |b| == Times(SizeOf(t), |values|)
  {
    if values == [] then [] else Written(t, hton, values[0]) + WrittenAll(t, hton, values[1..])
  }

  function WrittenField(f: Field, values: seq<Value>): (b: seq<byte>)
    requires Fills(f, values)
    ensures |b| == Room(f)
  {
    if IsArray(f.t) then values[0].bytes else WrittenAll(f.t, f.hton, values)
  }

  function Encoded(format: seq<Field>, rows: seq<seq<Value>>): (b: seq<byte>)
    requires FillsAll(format, rows)
    ensures |b| == TotalSize(format)
  {
    if format == [] then [] else WrittenField(format[0], rows[0]) + Encoded(format[1..], rows[1..])
  }

  // ---------------------------------------------------------------- the round trip

  /** Numbers come back unless they are negative, which are pushed unsigned; a 64-bit number must also fit
      into 32 bits, and in network order be zero. */
  predicate Survives(t: Type, hton: bool, v: Value) {
    v.Number? ==> 0 <= v.n && (IsLong(t) ==> if hton then v.n == 0 else v.n < WORD_MODULUS)
  }

  predicate SurvivesAll(t: Type, hton: bool, values: seq<Value>) {
    values == [] || (Survives(t, hton, values[0]) && SurvivesAll(t, hton, values[1..]))
  }

  /** A string comes back when it has no NUL, a byte array always. */
  predicate FieldSurvives(f: Field, values: seq<Value>)
    requires Fills(f, values)
  {
    if f.t == ByteArray then true
    else if f.t == CharArray then 0 !in values[0].bytes
    else SurvivesAll(f.t, f.hton, values)
  }

  predicate AllSurvive(format: seq<Field>, rows: seq<seq<Value>>)
    requires FillsAll(format, rows)
  {
    format == [] || (FieldSurvives(format[0], rows[0]) && AllSurvive(format[1..], rows[1..]))
  }

  /** What a 64-bit number comes back as: its low word in host order, its high word in network order. */
  lemma LongPushed(t: Type, hton: bool, n: int)
    requires IsLong(t) && Holds(t, Number(n))
    ensures Pushed(t, hton, Written(t, hton, Number(n))) ==
            Number(if hton then Pattern(t, n) / WORD_MODULUS else Pattern(t, n) % WORD_MODULUS)
  {
    var p := Pattern(t, n);
    Sizes();
    if hton {
      LongNetworkOrder(p);
    } else {
      LoadToLittle(p, 8);
    }
  }

  /** Any other number comes back as its bit pattern, in either byte order. */
  lemma ShortPushed(t: Type, hton: bool, n: int)
    requires !IsLong(t) && t != Double && Holds(t, Number(n))
    ensures Pushed(t, hton, Written(t, hton, Number(n))) == Number(Pattern(t, n))
  {
    if hton {
      NetworkOrder(Pattern(t, n), SizeOf(t));
      OneByte(Pattern(t, n));
    } else {
      LoadToLittle(Pattern(t, n), SizeOf(t));
    }
  }

  lemma Words(n: int)
    requires 0 <= n
    ensures n / WORD_MODULUS == n <==> n == 0
    ensures n % WORD_MODULUS == n <==> n < WORD_MODULUS
  {
  }

  lemma LongExactly(t: Type, hton: bool, n: int)
    requires IsLong(t) && Holds(t, Number(n))
    ensures Pushed(t, hton, Written(t, hton, Number(n))) == Number(n) <==> Survives(t, hton, Number(n))
  {
    LongPushed(t, hton, n);
    if n >= 0 {
      Words(n);
    }
  }

  lemma ValueExactly(t: Type, hton: bool, v: Value)
    requires !IsArray(t) && Holds(t, v)
    ensures Pushed(t, hton, Written(t, hton, v)) == v <==> Survives(t, hton, v)
  {
    if v.Number? {
      if IsLong(t) {
        LongExactly(t, hton, v.n);
      } else {
        ShortPushed(t, hton, v.n);
      }
    }
  }

  lemma {:induction false} ValuesExactly(t: Type, hton: bool, values: seq<Value>)
    requires !IsArray(t) && HoldsAll(t, values)
    ensures PushedAll(t, hton, |values|, WrittenAll(t, hton, values)) == values <==> SurvivesAll(t, hton, values)
  {
    if values != [] {
      var first, rest := Written(t, hton, values[0]), WrittenAll(t, hton, values[1..]);
      ValueExactly(t, hton, values[0]);
      ValuesExactly(t, hton, values[1..]);
      assert (first + rest)[..SizeOf(t)] == first && (first + rest)[SizeOf(t)..] == rest;
      var got := PushedAll(t, hton, |values|, first + rest);
      assert got == [Pushed(t, hton, first)] + PushedAll(t, hton, |values| - 1, rest);
      HeadAndTail(got, values);
    }
  }

  lemma HeadAndTail<T>(a: seq<T>, b: seq<T>)
    requires a != [] && b != []
    ensures a == b <==> a[0] == b[0] && a[1..] == b[1..]
  {
    if a[0] == b[0] && a[1..] == b[1..] {
      assert a == [a[0]] + a[1..] == b;
    }
  }

  lemma {:induction false} CharsExactly(b: seq<byte>)
    ensures Chars(b) == b <==> 0 !in b
  {
    if b != [] {
      CharsExactly(b[1..]);
      assert b == [b[0]] + b[1..];
      if b[0] != 0 {
        HeadAndTail(Chars(b), b);
      }
    }
  }

  lemma FieldExactly(f: Field, values: seq<Value>)
    requires Fills(f, values)
    ensures |ScannedField(f, WrittenField(f, values))| == |values|
    ensures ScannedField(f, WrittenField(f, values)) == values <==> FieldSurvives(f, values)
  {
    if IsArray(f.t) {
      CharsExactly(values[0].bytes);
      assert values == [values[0]];
    } else {
      ValuesExactly(f.t, f.hton, values);
    }
  }

  lemma SameParts<T>(a: seq<T>, b: seq<T>, c: seq<T>, d: seq<T>)
    requires |a| == |c|
    ensures a + b == c + d <==> a == c && b == d
  {
    assert a == (a + b)[..|a|] && b == (a + b)[|a|..];
    assert c == (c + d)[..|c|] && d == (c + d)[|c|..];
  }

  /** Scanning what a sender wrote gives the sender's values exactly when each of them survives. */
  lemma {:induction false} RoundTripExactly(format: seq<Field>, rows: seq<seq<Value>>)
    requires FillsAll(format, rows)
    ensures Scanned(format, Encoded(format, rows)) == Concat(rows) <==> AllSurvive(format, rows)
  {
    if format != [] {
      var first, rest := WrittenField(format[0], rows[0]), Encoded(format[1..], rows[1..]);
      FieldExactly(format[0], rows[0]);
      RoundTripExactly(format[1..], rows[1..]);
      assert (first + rest)[..Room(format[0])] == first && (first + rest)[Room(format[0])..] == rest;
      SameParts(ScannedField(format[0], first), Scanned(format[1..], rest), rows[0], Concat(rows[1..]));
    }
  }

  /** A reader given what the sender wrote pushes the sender's values exactly when they all survive. */
  method Scan(format: seq<Field>, rows: seq<seq<Value>>) returns (values: seq<Value>)
    requires FillsAll(format, rows)
    ensures values == Scanned(format, Encoded(format, rows))
    ensures values == Concat(rows) <==> AllSurvive(format, rows)
  {
    var reader := new LuaHttpScanfReader(Encoded(format, rows));
    var count;
    values, count := reader.Scanf(format);
    assert reader.buff[0..reader.readPos] == reader.buff;
    RoundTripExactly(format, rows);
  }
}
