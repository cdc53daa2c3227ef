/** The byte-string interface of src/utility/crypto.cpp: bytes packed little-endian into
    words, an optional length trailer, and a key cut at its first NUL. */
module XxteaBytes {
  import opened Machine
  import opened Xxtea

  const SIZE_MODULUS := 0x1_0000_0000_0000_0000  // size_t

  // ---------------------------------------------------------------- packing

  function PackedLength(len: nat): nat {
    if len % 4 == 0 then len / 4 else len / 4 + 1
  }

  function ByteAt(d: seq<byte>, i: nat): byte {
    if i < |d| then d[i] else 0
  }

  /** Word `w` of the zero-padded string, least significant byte first. */
  function PackWord(d: seq<byte>, w: nat): uint32 {
    ByteAt(d, 4 * w) + 0x100 * ByteAt(d, 4 * w + 1) + 0x1_0000 * ByteAt(d, 4 * w + 2) + 0x100_0000 * ByteAt(d, 4 * w + 3)
  }

  function Pack(d: seq<byte>): seq<uint32> {
    seq(PackedLength(|d|), w requires w >= 0 => PackWord(d, w))
  }

  function PackWithLength(d: seq<byte>): seq<uint32> {
    Pack(d) + [|d| % WORD_MODULUS]
  }

  function Lane(j: nat): nat {
    if j == 0 then 1 else if j == 1 then 0x100 else if j == 2 then 0x1_0000 else 0x100_0000
  }

  function LaneByte(w: uint32, j: nat): byte {
    if j == 0 then w % 0x100
    else if j == 1 then w / 0x100 % 0x100
    else if j == 2 then w / 0x1_0000 % 0x100
    else w / 0x100_0000 % 0x100
  }

  function Unpack(v: seq<uint32>, n: nat): (d: seq<byte>)
    requires n <= 4 * |v|
    ensures |d| == n
  {
    seq(n, i requires 0 <= i < n => LaneByte(v[i / 4], i % 4))
  }

  /** The length test on a trailer `m` after `len` words, in the source's size_t arithmetic. */
  predicate TrailerAccepted(m: uint32, len: nat)
    requires 1 <= len
  {
    var n := 4 * len - 4;
    !(m < (n - 3) % SIZE_MODULUS || m > n)
  }

  function UnpackWithLength(v: seq<uint32>): Option<seq<byte>>
    requires 1 <= |v| < WORD_MODULUS
  {
    var m := v[|v| - 1];
    if TrailerAccepted(m, |v|) then Some(Unpack(v, m)) else None
  }

  /** A trailer is accepted exactly when that many bytes fill the words before it.  A lone
      trailer word is never accepted, since n - 3 wraps. */
  lemma TrailerExact(m: uint32, len: nat)
    requires 1 <= len < WORD_MODULUS
    ensures TrailerAccepted(m, len) <==> 2 <= len && PackedLength(m) == len - 1
  {
    if len == 1 {
      assert (-3) % SIZE_MODULUS == SIZE_MODULUS - 3;
    } else {
      assert (4 * len - 7) % SIZE_MODULUS == 4 * len - 7;
    }
  }

  lemma LanesOfPacked(b0: byte, b1: byte, b2: byte, b3: byte, j: nat)
    requires j < 4
    ensures LaneByte(b0 + 0x100 * b1 + 0x1_0000 * b2 + 0x100_0000 * b3, j) == [b0, b1, b2, b3][j]
  {
    var w := b0 + 0x100 * b1 + 0x1_0000 * b2 + 0x100_0000 * b3;
    if j == 0 {
      assert w == b0 + 0x100 * (b1 + 0x100 * b2 + 0x1_0000 * b3);
    } else if j == 1 {
      assert w / 0x100 == b1 + 0x100 * (b2 + 0x100 * b3);
    } else if j == 2 {
      assert w / 0x1_0000 == b2 + 0x100 * b3;
    } else {
      assert w / 0x100_0000 == b3;
    }
  }

  lemma PackedOfLanes(w: uint32)
    ensures w == LaneByte(w, 0) + 0x100 * LaneByte(w, 1) + 0x1_0000 * LaneByte(w, 2) + 0x100_0000 * LaneByte(w, 3)
  {
    var a, b, c := w / 0x100, w / 0x1_0000, w / 0x100_0000;
    assert b == a / 0x100 && c == b / 0x100;
    assert w == 0x100 * a + LaneByte(w, 0) && a == 0x100 * b + LaneByte(w, 1) && b == 0x100 * c + LaneByte(w, 2);
  }

  /** Unpacking any words that start with the packed string gives the string back. */
  lemma UnpackPacked(d: seq<byte>, v: seq<uint32>)
    requires |Pack(d)| <= |v| && Pack(d) == v[..|Pack(d)|]
    ensures |d| <= 4 * |v| && Unpack(v, |d|) == d
  {
    forall i | 0 <= i < |d| ensures Unpack(v, |d|)[i] == d[i] {
      var w := i / 4;
      assert Pack(d)[w] == v[w] == PackWord(d, w);
      LanesOfPacked(ByteAt(d, 4 * w), ByteAt(d, 4 * w + 1), ByteAt(d, 4 * w + 2), ByteAt(d, 4 * w + 3), i % 4);
    }
  }

  lemma PackUnpacked(v: seq<uint32>)
    ensures Pack(Unpack(v, 4 * |v|)) == v
  {
    var d := Unpack(v, 4 * |v|);
    forall w | 0 <= w < |v| ensures Pack(d)[w] == v[w] {
      PackedOfLanes(v[w]);
      assert (4 * w + 1) / 4 == w && (4 * w + 2) / 4 == w && (4 * w + 3) / 4 == w;
    }
  }

  // ---------------------------------------------------------------- the key

  predicate NulBefore(key: seq<byte>, i: nat)
    requires i <= |key|
  {
    exists j :: 0 <= j < i && key[j] == 0
  }

  /** FIXED_KEY: sixteen bytes, zero from the first NUL on. */
  function FixedKey(key: seq<byte>): (k: seq<byte>)
    requires 16 <= |key|
    ensures |k| == 16
  {
    seq(16, i requires 0 <= i < 16 => if NulBefore(key, i) then 0 else key[i])
  }

  /** The two buffers hold the same characters up to the first NUL among the first sixteen. */
  predicate SameKeyText(a: seq<byte>, b: seq<byte>)
    requires 16 <= |a| && 16 <= |b|
  {
    forall i :: 0 <= i < 16 && !NulBefore(a, i) ==> a[i] == b[i]
  }

  lemma {:induction false} SameNuls(a: seq<byte>, b: seq<byte>, i: nat)
    requires 16 <= |a| && 16 <= |b| && i <= 16 && SameKeyText(a, b)
    ensures NulBefore(a, i) == NulBefore(b, i)
  {
    if i > 0 {
      SameNuls(a, b, i - 1);
      assert NulBefore(a, i) <==> NulBefore(a, i - 1) || a[i - 1] == 0;
      assert NulBefore(b, i) <==> NulBefore(b, i - 1) || b[i - 1] == 0;
    }
  }

  lemma FixedKeyAgrees(a: seq<byte>, b: seq<byte>)
    requires 16 <= |a| && 16 <= |b|
    ensures SameKeyText(a, b) ==> FixedKey(a) == FixedKey(b)
  {
    if SameKeyText(a, b) {
      forall i | 0 <= i < 16 ensures FixedKey(a)[i] == FixedKey(b)[i] {
        SameNuls(a, b, i);
      }
    }
  }

  function KeyMixer(key: seq<byte>): Mixer
    requires 16 <= |key|
  {
    MixWith(Pack(FixedKey(key)))
  }

  // ---------------------------------------------------------------- the cipher on bytes

  function EncryptBytes(d: seq<byte>, key: seq<byte>): Option<seq<byte>>
    requires 16 <= |key|
  {
    if d == [] then None
    else
      var w := EncryptWords(PackWithLength(d), KeyMixer(key));
      Some(Unpack(w, 4 * |w|))
  }

  function DecryptBytes(c: seq<byte>, key: seq<byte>): Option<seq<byte>>
    requires 16 <= |key| && PackedLength(|c|) < WORD_MODULUS
  {
    if c == [] then None else UnpackWithLength(DecryptWords(Pack(c), KeyMixer(key)))
  }

  lemma TrailerRoundTrip(d: seq<byte>)
    requires 0 < |d| < WORD_MODULUS
    ensures UnpackWithLength(PackWithLength(d)) == Some(d)
  {
    var plain := PackWithLength(d);
    assert TrailerAccepted(|d|, |plain|) by { TrailerExact(|d|, |plain|); }
    assert Unpack(plain, |d|) == d by {
      assert plain[..|Pack(d)|] == Pack(d);
      UnpackPacked(d, plain);
    }
    assert plain[|plain| - 1] == |d|;
  }

  /** Decryption returns the encrypted string, also under a key buffer that agrees with the
      encryption key only up to its first NUL. */
  lemma ByteRoundTrip(d: seq<byte>, key: seq<byte>, key': seq<byte>)
    requires 16 <= |key| && 16 <= |key'| && SameKeyText(key, key')
    requires 0 < |d| < WORD_MODULUS
    ensures EncryptBytes(d, key).Some?
    ensures |EncryptBytes(d, key).value| == 4 * PackedLength(|d|) + 4
    ensures DecryptBytes(EncryptBytes(d, key).value, key') == Some(d)
  {
    FixedKeyAgrees(key, key');
    assert KeyMixer(key) == KeyMixer(key');
    var mx := KeyMixer(key);
    PackUnpacked(EncryptWords(PackWithLength(d), mx));
    WordRoundTrip(PackWithLength(d), mx);
    TrailerRoundTrip(d);
  }

  /** Which ciphertexts decrypt at all, and that nothing else is returned. */
  lemma DecryptionExact(c: seq<byte>, key: seq<byte>, d: seq<byte>)
    requires 16 <= |key| && 0 < |c| && PackedLength(|c|) < WORD_MODULUS
    ensures var v := DecryptWords(Pack(c), KeyMixer(key));
            DecryptBytes(c, key) == Some(d) <==>
              |d| < WORD_MODULUS && v != [] && v[|v| - 1] == |d| && 2 <= |v| &&
              PackedLength(|d|) == |v| - 1 && Unpack(v, |d|) == d
  {
    var v := DecryptWords(Pack(c), KeyMixer(key));
    TrailerExact(v[|v| - 1], |v|);
  }

  // ---------------------------------------------------------------- what the byte cipher is

  /** Byte `i` of words in memory, least significant byte of each word first. */
  function ByteOf(v: seq<uint32>, i: nat): nat
    requires i < 4 * |v|
  {
    v[i / 4] / Pow2(8 * (i % 4)) % 0x100
  }

  /** The words hold the bytes, with zeros behind them. */
  ghost predicate HoldBytes(v: seq<uint32>, d: seq<byte>) {
    |v| == (|d| + 3) / 4 && forall i: nat :: i < 4 * |v| ==> ByteOf(v, i) == if i < |d| then d[i] else 0
  }

  /** The key words hold the sixteen key bytes, zero from the first NUL on. */
  ghost predicate HoldKey(k: Key, key: seq<byte>)
    requires 16 <= |key|
  {
    forall i: nat :: i < 16 ==> ByteOf(k, i) == if exists j :: 0 <= j < i && key[j] == 0 then 0 else key[i]
  }

  ghost predicate EncryptedBy(d: seq<byte>, key: seq<byte>, c: seq<byte>, v: seq<uint32>, w: seq<uint32>, k: Key)
    requires 16 <= |key|
  {
    && HoldBytes(v, d) && HoldKey(k, key) && IsEncryption(v + [|d| % 0x1_0000_0000], w, k)
    && |c| == 4 * |w| && forall i: nat :: i < |c| ==> c[i] == ByteOf(w, i)
  }

  /** Encryption, without its functions: the bytes in words, their number behind them, the recurrence of
      the word cipher, and the words it leads to as bytes. */
  ghost predicate IsByteEncryption(d: seq<byte>, key: seq<byte>, c: seq<byte>)
    requires 16 <= |key|
  {
    exists v, w, k :: EncryptedBy(d, key, c, v, w, k)
  }

  ghost predicate DecryptedBy(c: seq<byte>, key: seq<byte>, d: seq<byte>, v: seq<uint32>, w: seq<uint32>, k: Key)
    requires 16 <= |key|
  {
    && HoldBytes(w, c) && HoldKey(k, key) && IsEncryption(v, w, k)
    && 2 <= |v| == (|d| + 3) / 4 + 1 && v[|v| - 1] == |d|
    && forall i: nat :: i < |d| ==> d[i] == ByteOf(v, i)
  }

  /** Decryption: the recurrence leads from words that hold the bytes and their number to the words of the
      ciphertext. */
  ghost predicate IsByteDecryption(c: seq<byte>, key: seq<byte>, d: seq<byte>)
    requires 16 <= |key|
  {
    exists v, w, k :: DecryptedBy(c, key, d, v, w, k)
  }

  lemma ByteIsLane(v: seq<uint32>, i: nat)
    requires i < 4 * |v|
    ensures ByteOf(v, i) == LaneByte(v[i / 4], i % 4)
  {
    Pow2Word();
    assert Pow2(0) == 1;
  }

  lemma PackedBytes(d: seq<byte>, i: nat)
    requires i < 4 * |Pack(d)|
    ensures ByteOf(Pack(d), i) == if i < |d| then d[i] else 0
  {
    var w := i / 4;
    ByteIsLane(Pack(d), i);
    LanesOfPacked(ByteAt(d, 4 * w), ByteAt(d, 4 * w + 1), ByteAt(d, 4 * w + 2), ByteAt(d, 4 * w + 3), i % 4);
  }

  /** Words are determined by their bytes. */
  lemma SameBytes(v: seq<uint32>, w: seq<uint32>)
    requires |v| == |w| && forall i: nat :: i < 4 * |v| ==> ByteOf(v, i) == ByteOf(w, i)
    ensures v == w
  {
    forall k | 0 <= k < |v| ensures v[k] == w[k] {
      forall j: nat | j < 4 ensures LaneByte(v[k], j) == LaneByte(w[k], j) {
        assert (4 * k + j) / 4 == k && (4 * k + j) % 4 == j;
        ByteIsLane(v, 4 * k + j);
        ByteIsLane(w, 4 * k + j);
      }
      PackedOfLanes(v[k]);
      PackedOfLanes(w[k]);
    }
  }

  lemma PackedExactly(v: seq<uint32>, d: seq<byte>)
    ensures HoldBytes(v, d) <==> v == Pack(d)
  {
    forall i: nat | i < 4 * |Pack(d)| ensures ByteOf(Pack(d), i) == if i < |d| then d[i] else 0 {
      PackedBytes(d, i);
    }
    if HoldBytes(v, d) {
      SameBytes(v, Pack(d));
    }
  }

  lemma KeyExactly(k: Key, key: seq<byte>)
    requires 16 <= |key|
    ensures HoldKey(k, key) <==> k == Pack(FixedKey(key))
  {
    var fixed := FixedKey(key);
    forall i: nat | i < 16 ensures ByteOf(Pack(fixed), i) == if exists j :: 0 <= j < i && key[j] == 0 then 0 else key[i] {
      PackedBytes(fixed, i);
    }
    if HoldKey(k, key) {
      SameBytes(k, Pack(fixed));
    }
  }

  lemma UnpackedExactly(v: seq<uint32>, n: nat, d: seq<byte>)
    requires n <= 4 * |v|
    ensures d == Unpack(v, n) <==> |d| == n && forall i: nat :: i < n ==> d[i] == ByteOf(v, i)
  {
    forall i: nat | i < n ensures Unpack(v, n)[i] == ByteOf(v, i) {
      ByteIsLane(v, i);
    }
  }

  lemma EncryptionExactly(d: seq<byte>, key: seq<byte>, c: seq<byte>)
    requires 16 <= |key| && d != []
    ensures EncryptBytes(d, key) == Some(c) <==> IsByteEncryption(d, key, c)
  {
    var v, k := Pack(d), Pack(FixedKey(key));
    var w := EncryptWords(PackWithLength(d), MixWith(k));
    PackedExactly(v, d);
    KeyExactly(k, key);
    CipherExactly(PackWithLength(d), w, k);
    UnpackedExactly(w, 4 * |w|, c);
    if EncryptBytes(d, key) == Some(c) {
      assert EncryptedBy(d, key, c, v, w, k);
    }
    if IsByteEncryption(d, key, c) {
      var v', w', k' :| EncryptedBy(d, key, c, v', w', k');
      PackedExactly(v', d);
      KeyExactly(k', key);
      CipherExactly(PackWithLength(d), w', k);
    }
  }

  lemma DecryptedIs(c: seq<byte>, key: seq<byte>, d: seq<byte>)
    requires 16 <= |key| && 0 < |c| && PackedLength(|c|) < WORD_MODULUS && DecryptBytes(c, key) == Some(d)
    ensures IsByteDecryption(c, key, d)
  {
    var w, k := Pack(c), Pack(FixedKey(key));
    var v := DecryptWords(w, MixWith(k));
    PackedExactly(w, c);
    KeyExactly(k, key);
    WordRoundTrip(w, MixWith(k));
    CipherExactly(v, w, k);
    DecryptionExact(c, key, d);
    UnpackedExactly(v, |d|, d);
    assert DecryptedBy(c, key, d, v, w, k);
  }

  lemma WordsDecrypted(v: seq<uint32>, w: seq<uint32>, k: Key)
    requires IsEncryption(v, w, k)
    ensures DecryptWords(w, MixWith(k)) == v
  {
    CipherExactly(v, w, k);
    WordRoundTrip(v, MixWith(k));
  }

  lemma BytesDecrypted(c: seq<byte>, key: seq<byte>, d: seq<byte>, v: seq<uint32>)
    requires 16 <= |key| && 0 < |c| && PackedLength(|c|) < WORD_MODULUS && v == DecryptWords(Pack(c), KeyMixer(key))
    requires 2 <= |v| == (|d| + 3) / 4 + 1 && v[|v| - 1] == |d| && forall i: nat :: i < |d| ==> d[i] == ByteOf(v, i)
    ensures DecryptBytes(c, key) == Some(d)
  {
    UnpackedExactly(v, |d|, d);
    DecryptionExact(c, key, d);
  }

  lemma IsDecrypted(c: seq<byte>, key: seq<byte>, d: seq<byte>, v: seq<uint32>, w: seq<uint32>, k: Key)
    requires 16 <= |key| && 0 < |c| && PackedLength(|c|) < WORD_MODULUS && DecryptedBy(c, key, d, v, w, k)
    ensures DecryptBytes(c, key) == Some(d)
  {
    PackedExactly(w, c);
    KeyExactly(k, key);
    WordsDecrypted(v, w, k);
    BytesDecrypted(c, key, d, v);
  }

  lemma DecryptionExactly(c: seq<byte>, key: seq<byte>, d: seq<byte>)
    requires 16 <= |key| && 0 < |c| && PackedLength(|c|) < WORD_MODULUS
    ensures DecryptBytes(c, key) == Some(d) <==> IsByteDecryption(c, key, d)
  {
    if DecryptBytes(c, key) == Some(d) {
      DecryptedIs(c, key, d);
    }
    if IsByteDecryption(c, key, d) {
      var v, w, k :| DecryptedBy(c, key, d, v, w, k);
      IsDecrypted(c, key, d, v, w, k);
    }
  }

  // ---------------------------------------------------------------- the loops

  lemma PackOneMore(d: seq<byte>, i: nat)
    requires i < |d|
    ensures PackWord(d[..i], i / 4) < Lane(i % 4)
    ensures PackWord(d[..i + 1], i / 4) == PackWord(d[..i], i / 4) + d[i] * Lane(i % 4)
    ensures forall w: nat :: w != i / 4 ==> PackWord(d[..i + 1], w) == PackWord(d[..i], w)
  {
  }

  lemma OrIsPackStep(d: seq<byte>, i: nat)
    requires i < |d|
    ensures d[i] * Lane(i % 4) < WORD_MODULUS
    ensures Or32(PackWord(d[..i], i / 4), d[i] * Lane(i % 4)) == PackWord(d[..i + 1], i / 4)
  {
    PackOneMore(d, i);
    Pow2Word();
    assert Pow2(8 * (i % 4)) == Lane(i % 4);
    OrIntoClearLane(PackWord(d[..i], i / 4), d[i], 8 * (i % 4), 32);
  }

  ghost predicate Packed(out: seq<uint32>, d: seq<byte>, n: nat) {
    n <= |out| && forall w: nat :: w < n ==> out[w] == PackWord(d, w)
  }

  lemma PackStep(out: seq<uint32>, d: seq<byte>, i: nat, n: nat)
    requires i < |d| && i / 4 < n && Packed(out, d[..i], n)
    ensures d[i] * Lane(i % 4) < WORD_MODULUS
    ensures Packed(out[i / 4 := Or32(out[i / 4], d[i] * Lane(i % 4))], d[..i + 1], n)
  {
    PackOneMore(d, i);
    OrIsPackStep(d, i);
  }

  /** The filling loop of xxtea_to_uint_array, in the form that does not rely on the byte order
      of the machine. */
  method FillWords(out: array<uint32>, data: seq<byte>)
    requires PackedLength(|data|) <= out.Length
    requires Packed(out[..], [], PackedLength(|data|))
    modifies out
    ensures out[..] == Pack(data) + old(out[..])[PackedLength(|data|)..]
  {
    ghost var n := PackedLength(|data|);
    var i := 0;
    while i < |data|
      invariant 0 <= i <= |data|
      invariant out[n..] == old(out[n..])
      invariant Packed(out[..], data[..i], n)
    {
      PackStep(out[..], data, i, n);
      var shifted: uint32 := data[i] * Lane(i % 4);
      out[i / 4] := Or32(out[i / 4], shifted);
      i := i + 1;
    }
    assert data[..i] == data;
  }

  /** xxtea_to_uint_array. */
  method ToWords(data: seq<byte>, incLen: bool) returns (out: array<uint32>)
    ensures fresh(out)
    ensures out[..] == if incLen then PackWithLength(data) else Pack(data)
  {
    var len := |data|;
    var n := if len % 4 == 0 then len / 4 else len / 4 + 1;
    if incLen {
      out := new uint32[n + 1](_ => 0);
      out[n] := len % WORD_MODULUS;
    } else {
      out := new uint32[n](_ => 0);
    }
    FillWords(out, data);
  }

  /** xxtea_to_ubyte_array; `null` stands for the rejected trailer. */
  method ToBytes(data: array<uint32>, incLen: bool) returns (out: array?<byte>, outLen: nat)
    requires 1 <= data.Length < WORD_MODULUS
    ensures out == null <==> incLen && UnpackWithLength(data[..]).None?
    ensures out != null ==> fresh(out) && out.Length == outLen + 1 && out[outLen] == 0
    ensures out != null && incLen ==> UnpackWithLength(data[..]) == Some(out[..outLen])
    ensures out != null && !incLen ==> out[..outLen] == Unpack(data[..], 4 * data.Length)
  {
    var n := 4 * data.Length;
    out, outLen := null, 0;
    if incLen {
      var m := data[data.Length - 1];
      n := n - 4;
      if m < (n - 3) % SIZE_MODULUS || m > n {
        return;
      }
      n := m;
    }
    out := new byte[n + 1](_ => 0);
    var i := 0;
    while i < n
      invariant 0 <= i <= n && out.Length == n + 1 && out[n] == 0 && fresh(out)
      invariant forall j :: 0 <= j < i ==> out[j] == LaneByte(data[j / 4], j % 4)
    {
      out[i] := LaneByte(data[i / 4], i % 4);
      i := i + 1;
    }
    outLen := n;
    assert out[..n] == Unpack(data[..], n);
  }

  /** The FIXED_KEY macro. */
  method CutKey(key: seq<byte>) returns (fixed: array<byte>)
    requires 16 <= |key|
    ensures fresh(fixed) && fixed.Length == 16 && fixed[..] == FixedKey(key)
  {
    fixed := new byte[16](i requires 0 <= i < 16 => key[i]);
    var i := 0;
    while i < 16 && fixed[i] != 0
      invariant 0 <= i <= 16
      invariant fixed[..] == key[..16]
      invariant !NulBefore(key, i)
    {
      i := i + 1;
    }
    ghost var nul := i;
    i := i + 1;
    while i < 16
      invariant nul < i
      invariant nul < 16 ==> i <= 16 && key[nul] == 0
      invariant forall j :: 0 <= j < 16 ==> fixed[j] == if nul < j < i then 0 else key[j]
    {
      fixed[i] := 0;
      i := i + 1;
    }
  }

  /** xxtea_encrypt. */
  method EncryptString(data: seq<byte>, key: seq<byte>) returns (out: array?<byte>, outLen: nat)
    requires 16 <= |key| && PackedLength(|data|) + 1 < WORD_MODULUS
    ensures out == null <==> data == []
    ensures out != null ==> outLen < out.Length && EncryptBytes(data, key) == Some(out[..outLen])
    ensures out != null ==> IsByteEncryption(data, key, out[..outLen])
  {
    out, outLen := null, 0;
    var fixed := CutKey(key);
    if |data| == 0 {
      return;
    }
    var words := ToWords(data, true);
    var keyWords := ToWords(fixed[..], false);
    ghost var rounds := EncryptInPlace(words, MixWith(keyWords[..]));
    out, outLen := ToBytes(words, false);
    EncryptionExactly(data, key, out[..outLen]);
  }

  /** xxtea_decrypt. */
  method DecryptString(data: seq<byte>, key: seq<byte>) returns (out: array?<byte>, outLen: nat)
    requires 16 <= |key| && PackedLength(|data|) < WORD_MODULUS
    ensures out == null <==> DecryptBytes(data, key).None?
    ensures out != null ==> outLen < out.Length && DecryptBytes(data, key) == Some(out[..outLen])
    ensures out != null ==> IsByteDecryption(data, key, out[..outLen])
    ensures out == null && data != [] ==> forall d :: !IsByteDecryption(data, key, d)
  {
    out, outLen := null, 0;
    var fixed := CutKey(key);
    if |data| == 0 {
      return;
    }
    var words := ToWords(data, false);
    var keyWords := ToWords(fixed[..], false);
    ghost var rounds := DecryptInPlace(words, MixWith(keyWords[..]));
    out, outLen := ToBytes(words, true);
    forall d ensures DecryptBytes(data, key) == Some(d) <==> IsByteDecryption(data, key, d) {
      DecryptionExactly(data, key, d);
    }
  }
}
