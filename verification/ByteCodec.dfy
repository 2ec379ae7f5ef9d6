/** The chunk codec of shamir.py: a byte string as its length followed by fixed-width integers. */
module ByteCodec {
  import opened ModularArithmetic
  import opened Wrappers

  type byte = b: int | 0 <= b < 256

  /** The exceptions integer_list_to_string can raise. */
  datatype CodecError = IndexError | OverflowError | UnicodeDecodeError

  // ---------- big-endian integers ----------

  function Pow256(w: nat): (r: nat)
    ensures r >= 1
  {
    if w == 0 then 1 else 256 * Pow256(w - 1)
  }

  /** int.from_bytes(b, 'big'). */
  function FromBigEndian(b: seq<byte>): (n: nat)
    ensures n < Pow256(|b|)
  {
    if b == [] then 0 else 256 * FromBigEndian(b[..|b| - 1]) + b[|b| - 1]
  }

  /** n.to_bytes(w, 'big') for a value that fits. */
  function ToBigEndian(n: nat, w: nat): (b: seq<byte>)
    requires n < Pow256(w)
    ensures |b| == w && FromBigEndian(b) == n
  {
    if w == 0 then [] else
      var b := ToBigEndian(n / 256, w - 1) + [n % 256];
      assert b[..|b| - 1] == ToBigEndian(n / 256, w - 1);
      b
  }

  lemma {:induction false} BigEndianInverse(b: seq<byte>)
    ensures ToBigEndian(FromBigEndian(b), |b|) == b
    decreases |b|
  {
    if b != [] {
      var k := |b| - 1;
      BigEndianInverse(b[..k]);
      assert b == b[..k] + [b[k]];
    }
  }

  /** The first byte is the most significant one. */
  lemma {:induction false} MostSignificantFirst(b: seq<byte>)
    requires b != []
    ensures FromBigEndian(b) == b[0] * Pow256(|b| - 1) + FromBigEndian(b[1..])
    decreases |b|
  {
    if |b| > 1 {
      var k := |b| - 1;
      MostSignificantFirst(b[..k]);
      assert b[1..][..k - 1] == b[..k][1..];
      ScaleByByte(b[0], Pow256(k - 1), FromBigEndian(b[..k][1..]));
    }
  }

  lemma ScaleByByte(a: int, q: int, r: int)
    ensures 256 * (a * q + r) == a * (256 * q) + 256 * r
  {
    assert 256 * (a * q) == a * (256 * q);
  }

  // ---------- chunks ----------

  function Min(a: int, b: int): int {
    if a < b then a else b
  }

  /** chunk.ljust(w, b'\x00'). */
  function PadRight(b: seq<byte>, w: nat): (p: seq<byte>)
    ensures b <= p && |p| == if |b| < w then w else |b|
    ensures forall i :: |b| <= i < |p| ==> p[i] == 0
  {
    if |b| < w then b + seq(w - |b|, _ => 0) else b
  }

  /** The first chunk of width w, padded, as an integer. */
  function FirstChunk(raw: seq<byte>, w: nat): (n: nat)
    ensures n < Pow256(w)
  {
    FromBigEndian(PadRight(raw[..Min(w, |raw|)], w))
  }

  function Chunks(raw: seq<byte>, w: nat): (c: seq<nat>)
    requires w >= 1
    ensures forall i :: 0 <= i < |c| ==> c[i] < Pow256(w)
    decreases |raw|
  {
    if raw == [] then [] else [FirstChunk(raw, w)] + Chunks(raw[Min(w, |raw|)..], w)
  }

  function ToIntegers(raw: seq<byte>, w: nat): (c: seq<nat>)
    requires w >= 1
  {
    [|raw|] + Chunks(raw, w)
  }

  predicate Fits(n: int, w: nat) {
    0 <= n < Pow256(w)
  }

  predicate AllFit(ints: seq<int>, w: nat) {
    forall i :: 0 <= i < |ints| ==> Fits(ints[i], w)
  }

  /** The bytes of integers that all fit into w bytes. */
  function Join(ints: seq<int>, w: nat): (b: seq<byte>)
    requires AllFit(ints, w)
  {
    if ints == [] then [] else ToBigEndian(ints[0], w) + Join(ints[1..], w)
  }

  /** Python's s[:n], where a negative n counts from the end. */
  function Prefix<T>(s: seq<T>, n: int): (p: seq<T>)
    ensures p <= s && |p| == if n >= 0 then Min(n, |s|) else if |s| + n >= 0 then |s| + n else 0
  {
    if n >= 0 then s[..Min(n, |s|)]
    else if |s| + n >= 0 then s[..|s| + n]
    else []
  }

  /** The value or exception of integer_list_to_string; a string is represented by its UTF-8 bytes. */
  function FromIntegers(ints: seq<int>, w: nat, utf8: seq<byte> -> bool): Result<seq<byte>, CodecError> {
    if ints == [] then Failure(IndexError)
    else if !AllFit(ints[1..], w) then Failure(OverflowError)
    else
      var raw := Prefix(Join(ints[1..], w), ints[0]);
      if utf8(raw) then Success(raw) else Failure(UnicodeDecodeError)
  }

  // ---------- the two loops ----------

  method StringToIntegers(raw: seq<byte>, w: nat) returns (result: seq<nat>)
    requires w >= 1
    ensures result == ToIntegers(raw, w)
  {
    hide FirstChunk, FromBigEndian, PadRight, Pow256, Chunks;
    result := [|raw|];
    var i := 0;
    assert raw[0..] == raw;
    while i < |raw|
      invariant i >= 0 && result + Chunks(raw[Min(i, |raw|)..], w) == ToIntegers(raw, w)
    {
      var chunk := raw[i..Min(i + w, |raw|)];
      var n := FromBigEndian(PadRight(chunk, w));
      NextChunk(raw, i, w);
      var rest := Chunks(raw[Min(i + w, |raw|)..], w);
      assert result + ([n] + rest) == (result + [n]) + rest;
      result := result + [n];
      i := i + w;
    }
    assert raw[|raw|..] == [];
    NoChunks(w);
  }

  lemma NextChunk(raw: seq<byte>, i: nat, w: nat)
    requires w >= 1 && i < |raw|
    ensures Chunks(raw[i..], w)
         == [FromBigEndian(PadRight(raw[i..Min(i + w, |raw|)], w))] + Chunks(raw[Min(i + w, |raw|)..], w)
  {
    hide FromBigEndian, PadRight, Pow256;
    var rest := raw[i..];
    assert rest[..Min(w, |rest|)] == raw[i..Min(i + w, |raw|)];
    assert rest[Min(w, |rest|)..] == raw[Min(i + w, |raw|)..];
  }

  lemma NoChunks(w: nat)
    requires w >= 1
    ensures Chunks([], w) == []
  {
  }

  method IntegerListToString(ints: seq<int>, w: nat, utf8: seq<byte> -> bool)
    returns (r: Result<seq<byte>, CodecError>)
    ensures r == FromIntegers(ints, w, utf8)
    ensures r == Failure(IndexError) <==> ints == []
    ensures r == Failure(OverflowError) <==> exists i :: 1 <= i < |ints| && !(0 <= ints[i] < Pow256(w))
    ensures r.Success? ==> utf8(r.value) && r.value == Prefix(Join(ints[1..], w), ints[0])
    ensures r == Failure(UnicodeDecodeError) ==> !utf8(Prefix(Join(ints[1..], w), ints[0]))
  {
    hide Fits, ToBigEndian;
    if ints == [] {
      return Failure(IndexError);
    }
    var byteLength := ints[0];
    var allBytes: seq<byte> := [];
    ghost var chunks := ints[1..];
    for i := 0 to |ints| - 1
      invariant AllFit(chunks[..i], w)
      invariant allBytes == Join(chunks[..i], w)
    {
      var integer := ints[i + 1];
      assert integer == chunks[i];
      if !Fits(integer, w) {
        DoesNotFit(ints, i + 1, w);
        return Failure(OverflowError);
      }
      JoinAppend(chunks[..i], integer, w);
      assert chunks[..i + 1] == chunks[..i] + [integer];
      allBytes := allBytes + ToBigEndian(integer, w);
    }
    assert chunks[..|ints| - 1] == chunks;
    EveryEntryFits(ints, w);
    var raw := Prefix(allBytes, byteLength);
    r := if utf8(raw) then Success(raw) else Failure(UnicodeDecodeError);
  }

  lemma DoesNotFit(ints: seq<int>, i: nat, w: nat)
    requires 1 <= i < |ints| && !Fits(ints[i], w)
    ensures !(0 <= ints[i] < Pow256(w)) && !AllFit(ints[1..], w)
  {
    assert ints[1..][i - 1] == ints[i];
  }

  lemma EveryEntryFits(ints: seq<int>, w: nat)
    requires ints != [] && AllFit(ints[1..], w)
    ensures forall i :: 1 <= i < |ints| ==> 0 <= ints[i] < Pow256(w)
  {
    forall i | 1 <= i < |ints|
      ensures 0 <= ints[i] < Pow256(w)
    {
      assert ints[1..][i - 1] == ints[i];
      assert Fits(ints[1..][i - 1], w);
    }
  }

  lemma {:induction false} JoinAppend(ints: seq<int>, n: int, w: nat)
    requires AllFit(ints, w) && Fits(n, w)
    ensures AllFit(ints + [n], w) && Join(ints + [n], w) == Join(ints, w) + ToBigEndian(n, w)
  {
    hide ToBigEndian;
    if ints == [] {
      assert [n][1..] == [];
    } else {
      JoinAppend(ints[1..], n, w);
      assert (ints + [n])[1..] == ints[1..] + [n];
    }
  }

  // ---------- properties ----------

  /** Joining the chunks gives the bytes back, followed by padding. */
  lemma {:induction false} JoinChunks(raw: seq<byte>, w: nat)
    requires w >= 1
    ensures raw <= Join(Chunks(raw, w), w)
    decreases |raw|
  {
    hide FromBigEndian, ToBigEndian, PadRight, Pow256;
    if raw != [] {
      var k := Min(w, |raw|);
      var first, rest := FirstChunk(raw, w), Chunks(raw[k..], w);
      var padded := PadRight(raw[..k], w);
      BigEndianInverse(padded);
      JoinChunks(raw[k..], w);
      assert Chunks(raw, w) == [first] + rest && ([first] + rest)[1..] == rest;
      assert Join(Chunks(raw, w), w) == padded + Join(rest, w);
      if k == |raw| {
        assert raw[..k] == raw;
      } else {
        PadNothing(raw[..k], w);
        assert raw == raw[..k] + raw[k..];
      }
    }
  }

  lemma PadNothing(b: seq<byte>, w: nat)
    requires |b| == w
    ensures PadRight(b, w) == b
  {
  }

  /** The k-th chunk is the number of the bytes from k * w on, padded on the right with zeros. */
  lemma {:induction false} ChunkAt(raw: seq<byte>, w: nat, k: nat, i: nat)
    requires w >= 1 && i == k * w < |raw|
    ensures ToIntegers(raw, w)[0] == |raw| && k + 1 < |ToIntegers(raw, w)|
    ensures ToIntegers(raw, w)[k + 1] == FromBigEndian(PadRight(raw[i..Min(i + w, |raw|)], w))
    decreases k
  {
    hide FromBigEndian, PadRight, Pow256;
    if k > 0 {
      OneChunkLess(w, k);
      var rest := raw[w..];
      ChunkAt(rest, w, k - 1, i - w);
      assert Chunks(raw, w) == [FirstChunk(raw, w)] + Chunks(rest, w);
      assert rest[i - w..Min(i, |rest|)] == raw[i..Min(i + w, |raw|)];
    }
  }

  lemma OneChunkLess(w: nat, k: nat)
    requires k > 0
    ensures k * w == (k - 1) * w + w >= w
  {
  }

  /** Joining is the other direction of chunking. */
  lemma {:induction false} ChunksOfJoin(ints: seq<int>, w: nat)
    requires w >= 1 && AllFit(ints, w)
    ensures Chunks(Join(ints, w), w) == ints
  {
    hide FromBigEndian, ToBigEndian, Pow256;
    if ints != [] {
      var first, rest := ToBigEndian(ints[0], w), Join(ints[1..], w);
      ChunksOfJoin(ints[1..], w);
      assert (first + rest)[..w] == first && (first + rest)[w..] == rest;
      PadNothing(first, w);
    }
  }

  /** integer_list_to_string inverts string_to_integers for every chunk width. */
  lemma CodecRoundTrip(raw: seq<byte>, w: nat, utf8: seq<byte> -> bool)
    requires w >= 1 && utf8(raw)
    ensures FromIntegers(ToIntegers(raw, w), w, utf8) == Success(raw)
  {
    hide Join;
    var chunks := Chunks(raw, w);
    assert ToIntegers(raw, w)[1..] == chunks;
    JoinChunks(raw, w);
    assert Prefix(Join(chunks, w), |raw|) == raw;
  }

  /** The list has one length word and ceil(n / w) chunks. */
  lemma {:induction false} ChunkCount(raw: seq<byte>, w: nat)
    requires w >= 1
    ensures |ToIntegers(raw, w)| == 1 + (|raw| + w - 1) / w
    decreases |raw|
  {
    hide FirstChunk, Pow256;
    if raw == [] {
      DivModUnique(w - 1, 0, w - 1, w);
    } else {
      var rest := raw[Min(w, |raw|)..];
      ChunkCount(rest, w);
      if |raw| <= w {
        assert rest == [] && Chunks(rest, w) == [];
        DivModUnique(|raw| + w - 1, 1, |raw| - 1, w);
      } else {
        QuotientPlusOne(|raw| - 1, w);
      }
    }
  }

  lemma QuotientPlusOne(n: nat, w: nat)
    requires w > 0
    ensures (n + w) / w == n / w + 1
  {
    DivModUnique(n + w, n / w + 1, n % w, w);
  }

  /** With 8-byte chunks and the size cap every entry of the list is below any modulus above 2^64. */
  lemma EntriesBelow(raw: seq<byte>, p: int)
    requires |raw| <= 0x1_0000_0000_0000_0000 < p
    ensures forall i :: 0 <= i < |ToIntegers(raw, 8)| ==> 0 <= ToIntegers(raw, 8)[i] < p
  {
    Width8();
    hide Pow256;
    assert forall i :: 0 <= i < |Chunks(raw, 8)| ==> Chunks(raw, 8)[i] < p;
  }

  lemma Width8()
    ensures Pow256(8) == 0x1_0000_0000_0000_0000
  {
    assert Pow256(4) == 0x1_0000_0000;
  }
}
