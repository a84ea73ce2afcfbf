/** Byte-level vocabulary shared by every part of the model: bounded integer
    types, the failure outcomes of the Rust code (each panic becomes an error
    value), little-endian integer encoding as the Rust `to_le_bytes` /
    `from_le_bytes` calls perform it, and packing of fixed-width records into
    a flat byte string (bytemuck's `cast_slice`). */
module Wire {

  type byte = x: int | 0 <= x < 256
  type u32 = x: int | 0 <= x < 0x1_0000_0000
  type u64 = x: int | 0 <= x < 0x1_0000_0000_0000_0000

  const U32_LIMIT: nat := 0x1_0000_0000
  const U64_LIMIT: nat := 0x1_0000_0000_0000_0000

  /** What went wrong; every variant stands for a Rust panic. */
  datatype Error =
    | OutOfBounds        // slice indexing past the end of a buffer
    | SliceSlop          // cast_slice of a byte length that is not a multiple of the element size
    | UnknownTag         // MaterialParameter tag outside 0..4 (`panic!()`)
    | UnknownFormat      // `Format::try_from` failed and was unwrapped
    | Overflow           // checked_add(..).unwrap(), .expect("Overflow"), or debug-mode arithmetic overflow
    | NullBase           // allocate on an allocator whose base is null
    | OutOfMemory        // "Out of memory"
    | DecompressFailed   // lz4 decompress_to_buffer(..).unwrap()
    | AssertionFailed    // a failed `assert!`
    | Unreachable        // `unreachable!()`
    | DivisionByZero     // integer division by zero
    | InvalidName        // a C string that is not UTF-8, or a `str` slice off a char boundary
    | CompressFailed     // lz4 compress(..).expect("Failed to compress scene")
    | MissingValue       // `unwrap()` of a `None`
    | ImageDecodeFailed  // ImageReader::open(..).unwrap().decode().unwrap()

  datatype Result<T> = Ok(value: T) | Err(error: Error) {
    predicate IsFailure() { Err? }
    function PropagateFailure<U>(): Result<U> requires Err? { Err(error) }
    function Extract(): T requires Ok? { value }
  }

  /** A UTF-8 continuation byte (`10xxxxxx`). */
  predicate IsCont(x: byte)
  {
    0x80 <= x <= 0xBF
  }

  function Pow256(n: nat): (r: nat)
    ensures r >= 1
  {
    if n == 0 then 1 else 256 * Pow256(n - 1)
  }

  lemma Pow256Values()
    ensures Pow256(4) == U32_LIMIT && Pow256(8) == U64_LIMIT
  {
  }

  /** The `n` little-endian bytes of `x`. */
  function LE(x: nat, n: nat): (r: seq<byte>)
    requires x < Pow256(n)
    ensures |r| == n
  {
    if n == 0 then [] else [x % 256] + LE(x / 256, n - 1)
  }

  /** The unsigned integer whose little-endian bytes are `b`. */
  function FromLE(b: seq<byte>): (x: nat)
    ensures x < Pow256(|b|)
  {
    if |b| == 0 then 0 else b[0] + 256 * FromLE(b[1..])
  }

  lemma {:induction false} FromLEOfLE(x: nat, n: nat)
    requires x < Pow256(n)
    ensures FromLE(LE(x, n)) == x
  {
    if n > 0 {
      FromLEOfLE(x / 256, n - 1);
      assert LE(x, n)[1..] == LE(x / 256, n - 1);
    }
  }

  lemma {:induction false} LEOfFromLE(b: seq<byte>)
    ensures LE(FromLE(b), |b|) == b
  {
    if |b| > 0 {
      LEOfFromLE(b[1..]);
      var x := FromLE(b);
      assert x % 256 == b[0] && x / 256 == FromLE(b[1..]);
    }
  }

  function U32Bytes(x: u32): (r: seq<byte>)
    ensures |r| == 4 && FromLE(r) == x
  {
    Pow256Values();
    FromLEOfLE(x, 4);
    LE(x, 4)
  }

  function U64Bytes(x: u64): (r: seq<byte>)
    ensures |r| == 8 && FromLE(r) == x
  {
    Pow256Values();
    FromLEOfLE(x, 8);
    LE(x, 8)
  }

  /** `u32::from_le_bytes(b[..4])`: panics when fewer than 4 bytes remain. */
  function ReadU32(b: seq<byte>): (r: Result<(u32, seq<byte>)>)
    ensures r.Ok? <==> |b| >= 4
    ensures r.Ok? ==> r.value.1 == b[4..] && U32Bytes(r.value.0) == b[..4]
  {
    if |b| < 4 then Err(OutOfBounds)
    else
      Pow256Values();
      LEOfFromLE(b[..4]);
      Ok((FromLE(b[..4]), b[4..]))
  }

  /** `u64::from_le_bytes(b[..8])`: panics when fewer than 8 bytes remain. */
  function ReadU64(b: seq<byte>): (r: Result<(u64, seq<byte>)>)
    ensures r.Ok? <==> |b| >= 8
    ensures r.Ok? ==> r.value.1 == b[8..] && U64Bytes(r.value.0) == b[..8]
  {
    if |b| < 8 then Err(OutOfBounds)
    else
      Pow256Values();
      LEOfFromLE(b[..8]);
      Ok((FromLE(b[..8]), b[8..]))
  }

  lemma ReadU32OfBytes(x: u32, rest: seq<byte>)
    ensures ReadU32(U32Bytes(x) + rest) == Ok((x, rest))
  {
    var b := U32Bytes(x) + rest;
    assert b[..4] == U32Bytes(x) && b[4..] == rest;
  }

  lemma ReadU64OfBytes(x: u64, rest: seq<byte>)
    ensures ReadU64(U64Bytes(x) + rest) == Ok((x, rest))
  {
    var b := U64Bytes(x) + rest;
    assert b[..8] == U64Bytes(x) && b[8..] == rest;
  }

  /** Fixed-size records of width `w`, as a `[T]` whose `size_of::<T>()` is `w`. */
  ghost predicate AllWidth(xs: seq<seq<byte>>, w: nat)
  {
    forall i :: 0 <= i < |xs| ==> |xs[i]| == w
  }

  /** The packed bytes of a slice of records, tightly, with no padding. */
  function Flatten(xs: seq<seq<byte>>): seq<byte>
  {
    if xs == [] then [] else xs[0] + Flatten(xs[1..])
  }

  lemma {:induction false} FlattenLength(xs: seq<seq<byte>>, w: nat)
    requires AllWidth(xs, w)
    ensures |Flatten(xs)| == |xs| * w
  {
    if xs != [] {
      FlattenLength(xs[1..], w);
      assert |xs| * w == w + (|xs| - 1) * w;
    }
  }

  lemma {:induction false} FlattenAppend(xs: seq<seq<byte>>, ys: seq<seq<byte>>)
    ensures Flatten(xs + ys) == Flatten(xs) + Flatten(ys)
  {
    if xs == [] {
      assert xs + ys == ys;
    } else {
      FlattenAppend(xs[1..], ys);
      assert (xs + ys)[1..] == xs[1..] + ys;
      Assoc(xs[0], Flatten(xs[1..]), Flatten(ys));
    }
  }

  /** Splits `b` into its `k` consecutive records of width `w`: the inverse of Flatten. */
  function Chunks(b: seq<byte>, w: nat, k: nat): (r: seq<seq<byte>>)
    requires |b| == k * w
    ensures |r| == k && AllWidth(r, w)
    decreases k
  {
    if k == 0 then []
    else
      assert k * w == w + (k - 1) * w;
      [b[..w]] + Chunks(b[w..], w, k - 1)
  }

  lemma {:induction false} FlattenChunks(b: seq<byte>, w: nat, k: nat)
    requires |b| == k * w
    ensures Flatten(Chunks(b, w, k)) == b
    decreases k
  {
    if k > 0 {
      assert k * w == w + (k - 1) * w;
      FlattenChunks(b[w..], w, k - 1);
      var r := Chunks(b, w, k);
      assert r[1..] == Chunks(b[w..], w, k - 1);
    }
  }

  lemma {:induction false} ChunksFlatten(xs: seq<seq<byte>>, w: nat)
    requires AllWidth(xs, w)
    ensures |Flatten(xs)| == |xs| * w && Chunks(Flatten(xs), w, |xs|) == xs
  {
    FlattenLength(xs, w);
    if xs != [] {
      ChunksFlatten(xs[1..], w);
      var f := Flatten(xs);
      assert f[..w] == xs[0] && f[w..] == Flatten(xs[1..]);
      assert xs == [xs[0]] + xs[1..];
    }
  }

  /** When `n` is a multiple of `w`, it is `n / w` records of width `w`. */
  lemma DivExact(n: nat, w: nat)
    requires w > 0 && n % w == 0
    ensures n == (n / w) * w
  {
  }

  /** `k` records of width `w` are a multiple of `w`, and exactly `k` of them. */
  lemma MulDivExact(k: nat, w: nat)
    requires w > 0
    ensures (k * w) % w == 0 && (k * w) / w == k
  {
    var n := k * w;
    var q, r := n / w, n % w;
    assert n == q * w + r;
    assert (k - q) * w == r;
    if k - q >= 1 {
      assert false;
    } else if k - q <= -1 {
      assert false;
    }
  }

  lemma Assoc(a: seq<byte>, b: seq<byte>, c: seq<byte>)
    ensures (a + b) + c == a + (b + c)
  {
  }

  // ------------------------------------------------- sequences of elements

  /** Elements serialized one after another, each by `enc`. */
  function EncodeMany<T>(xs: seq<T>, enc: T -> seq<byte>): seq<byte>
  {
    if xs == [] then [] else enc(xs[0]) + EncodeMany(xs[1..], enc)
  }

  lemma {:induction false} EncodeManyAppend<T>(xs: seq<T>, ys: seq<T>, enc: T -> seq<byte>)
    ensures EncodeMany(xs + ys, enc) == EncodeMany(xs, enc) + EncodeMany(ys, enc)
  {
    if xs == [] {
      assert xs + ys == ys;
    } else {
      EncodeManyAppend(xs[1..], ys, enc);
      assert (xs + ys)[1..] == xs[1..] + ys;
      Assoc(enc(xs[0]), EncodeMany(xs[1..], enc), EncodeMany(ys, enc));
    }
  }

  /** Encoding the first `i + 1` elements is encoding the first `i`, then element `i`. */
  lemma EncodeManySnoc<T>(xs: seq<T>, i: nat, enc: T -> seq<byte>)
    requires i < |xs|
    ensures EncodeMany(xs[..i + 1], enc) == EncodeMany(xs[..i], enc) + enc(xs[i])
  {
    assert xs[..i + 1] == xs[..i] + [xs[i]];
    EncodeManyAppend(xs[..i], [xs[i]], enc);
    assert EncodeMany([xs[i]], enc) == enc(xs[i]) + EncodeMany([], enc);
  }

  /** `n` elements read one after another by `dec`, each from where the last stopped. */
  function DecodeMany<T>(n: nat, b: seq<byte>, dec: seq<byte> -> Result<(T, seq<byte>)>): (r: Result<(seq<T>, seq<byte>)>)
    ensures r.Ok? ==> |r.value.0| == n
    decreases n
  {
    if n == 0 then Ok(([], b))
    else
      var x :- dec(b);
      var xs :- DecodeMany(n - 1, x.1, dec);
      Ok(([x.0] + xs.0, xs.1))
  }

  /** When every successful element read re-encodes to the bytes it
      consumed, so does every successful read of `n` elements. */
  lemma {:induction false} DecodeManyReencodes<T>(n: nat, b: seq<byte>, dec: seq<byte> -> Result<(T, seq<byte>)>, enc: T -> seq<byte>)
    requires forall c :: dec(c).Ok? ==> enc(dec(c).value.0) + dec(c).value.1 == c
    ensures DecodeMany(n, b, dec).Ok? ==> EncodeMany(DecodeMany(n, b, dec).value.0, enc) + DecodeMany(n, b, dec).value.1 == b
    decreases n
  {
    if n > 0 && dec(b).Ok? {
      var x := dec(b).value;
      DecodeManyReencodes(n - 1, x.1, dec, enc);
      var r := DecodeMany(n, b, dec);
      if r.Ok? {
        var xs := DecodeMany(n - 1, x.1, dec).value;
        assert r.value.0 == [x.0] + xs.0;
        assert ([x.0] + xs.0)[1..] == xs.0;
        Assoc(enc(x.0), EncodeMany(xs.0, enc), xs.1);
      }
    }
  }

  /** The elements already read, in front of what the remaining reads give. */
  function PrependAll<T>(done: seq<T>, r: Result<(seq<T>, seq<byte>)>): (p: Result<(seq<T>, seq<byte>)>)
    ensures p.Ok? <==> r.Ok?
    ensures p.Ok? ==> p.value.0 == done + r.value.0 && p.value.1 == r.value.1
    ensures p.Err? ==> p.error == r.error
  {
    match r
    case Ok((xs, rest)) => Ok((done + xs, rest))
    case Err(e) => Err(e)
  }

  /** One step of DecodeMany: the first element, then the remaining `n - 1`. */
  lemma DecodeManyStep<T>(n: nat, b: seq<byte>, dec: seq<byte> -> Result<(T, seq<byte>)>)
    requires n > 0
    ensures dec(b).Err? ==> DecodeMany(n, b, dec) == Err(dec(b).error)
    ensures dec(b).Ok? ==> DecodeMany(n, b, dec) == PrependAll([dec(b).value.0], DecodeMany(n - 1, dec(b).value.1, dec))
  {
  }

  lemma PrependNothing<T>(r: Result<(seq<T>, seq<byte>)>)
    ensures PrependAll([], r) == r
  {
    if r.Ok? {
      assert [] + r.value.0 == r.value.0;
    }
  }

  lemma PrependTwice<T>(done: seq<T>, x: T, r: Result<(seq<T>, seq<byte>)>)
    ensures PrependAll(done, PrependAll([x], r)) == PrependAll(done + [x], r)
  {
    if r.Ok? {
      assert done + ([x] + r.value.0) == (done + [x]) + r.value.0;
    }
  }

  /** When `dec` inverts `enc` on every element, whatever follows, decoding
      `|xs|` elements inverts encoding them all. */
  lemma {:induction false} ManyRoundTrip<T>(xs: seq<T>, enc: T -> seq<byte>, dec: seq<byte> -> Result<(T, seq<byte>)>, rest: seq<byte>)
    requires forall x, r | x in xs :: dec(enc(x) + r) == Ok((x, r))
    ensures DecodeMany(|xs|, EncodeMany(xs, enc) + rest, dec) == Ok((xs, rest))
  {
    if xs == [] {
      assert EncodeMany(xs, enc) + rest == rest;
    } else {
      var tail := EncodeMany(xs[1..], enc) + rest;
      Assoc(enc(xs[0]), EncodeMany(xs[1..], enc), rest);
      assert dec(enc(xs[0]) + tail) == Ok((xs[0], tail));
      ManyRoundTrip(xs[1..], enc, dec, rest);
      assert [xs[0]] + xs[1..] == xs;
    }
  }
}

/** `Option<T>`, for the Rust functions that return one. */
module Optional {
  datatype Option<T> = None | Some(value: T)
}
