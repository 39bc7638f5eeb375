/** The forward-only byte stream the decoder reads: Python's file.read(n)
    combined with struct.unpack, a one-byte seek, and repetition of a record
    parser a counted number of times. A parser takes the whole buffer and a
    position and returns the decoded value with the position after it. */
module Reader {
  import opened Bytes
  import opened Results

  type Parser<T> = (seq<uint8>, nat) -> Result<Parsed<T>>

  function Min(a: nat, b: nat): nat {
    if a <= b then a else b
  }

  /** file.read(n) at pos: the next n bytes, or all that remain when fewer do. */
  function Read(buf: seq<uint8>, pos: nat, n: nat): (data: seq<uint8>)
    ensures pos + n <= |buf| ==> data == buf[pos .. pos + n]
    ensures pos + n > |buf| ==> data == if pos < |buf| then buf[pos..] else []
  {
    if pos >= |buf| then [] else buf[pos .. Min(pos + n, |buf|)]
  }

  /** read(n) followed by struct.unpack of an n-byte format: fails unless all
      n bytes are there. */
  function ReadExact(buf: seq<uint8>, pos: nat, n: nat): (r: Result<Parsed<seq<uint8>>>)
  {
    if pos + n <= |buf| then Ok(Parsed(buf[pos .. pos + n], pos + n)) else Err(ShortRead(pos, n))
  }

  /** ReadExact is struct.unpack of an n-byte format applied to read(n): it
      succeeds exactly when read returns all n bytes, and yields those bytes. */
  lemma ReadExactReads(buf: seq<uint8>, pos: nat, n: nat)
    ensures ReadExact(buf, pos, n).Ok? <==> pos <= |buf| && |Read(buf, pos, n)| == n
    ensures ReadExact(buf, pos, n).Ok? ==> ReadExact(buf, pos, n).value == Parsed(Read(buf, pos, n), pos + n)
  {
  }

  /** struct.unpack('<B', read(1)) */
  function ReadU8(buf: seq<uint8>, pos: nat): (r: Result<Parsed<uint8>>)
  {
    if pos < |buf| then Ok(Parsed(buf[pos], pos + 1)) else Err(ShortRead(pos, 1))
  }

  /** struct.unpack('<H', read(2)) */
  function ReadU16(buf: seq<uint8>, pos: nat): (r: Result<Parsed<nat>>)
  {
    var d :- ReadExact(buf, pos, 2);
    Ok(Parsed(LittleEndian(d.value), d.next))
  }

  /** struct.unpack('<I', read(4)), also '<L' */
  function ReadU32(buf: seq<uint8>, pos: nat): (r: Result<Parsed<nat>>)
  {
    var d :- ReadExact(buf, pos, 4);
    Ok(Parsed(LittleEndian(d.value), d.next))
  }

  /** struct.unpack('<' + 'f' * k, read(4 * k)), floats kept as bit patterns */
  function ReadWords(buf: seq<uint8>, pos: nat, k: nat): (r: Result<Parsed<seq<F32>>>)
  {
    var d :- ReadExact(buf, pos, 4 * k);
    Ok(Parsed(Words(d.value), d.next))
  }

  /** struct.unpack('<' + 'I' * k, read(4 * k)) */
  function ReadUint32s(buf: seq<uint8>, pos: nat, k: nat): (r: Result<Parsed<seq<nat>>>)
  {
    var d :- ReadExact(buf, pos, 4 * k);
    Ok(Parsed(Uint32s(d.value), d.next))
  }

  function WordsParser(k: nat): Parser<seq<F32>> {
    (b: seq<uint8>, q: nat) => ReadWords(b, q, k)
  }

  function Uint32sParser(k: nat): Parser<seq<nat>> {
    (b: seq<uint8>, q: nat) => ReadUint32s(b, q, k)
  }

  /** seek(1, 1) over a discarded byte. Python lets the position pass the end
      of the file; here the skip is bounds-checked, which rejects the same
      files because a skipped byte is always followed by a one-byte read. */
  function Skip(buf: seq<uint8>, pos: nat): (r: Result<nat>)
  {
    if pos < |buf| then Ok(pos + 1) else Err(ShortRead(pos, 1))
  }

  /** `count` records decoded one after another by p, in file order: the
      decoder's `for _ in range(count)` loops that append to a list. */
  function ParseMany<T>(p: Parser<T>, buf: seq<uint8>, pos: nat, count: nat): (r: Result<Parsed<seq<T>>>)
    ensures r.Ok? ==> |r.value.value| == count
    decreases count
  {
    if count == 0 then Ok(Parsed([], pos))
    else
      var head :- p(buf, pos);
      var tail :- ParseMany(p, buf, head.next, count - 1);
      Ok(Parsed([head.value] + tail.value, tail.next))
  }

  /** A count byte, then that many records: every list of the material
      table and the two top-level tables. */
  function ParseCounted<T>(p: Parser<T>, buf: seq<uint8>, pos: nat): (r: Result<Parsed<seq<T>>>)
  {
    var count :- ReadU8(buf, pos);
    ParseMany(p, buf, count.next, count.value)
  }

  /** `p(...) if present else None` */
  function ReadIf<T>(present: bool, p: Parser<T>, buf: seq<uint8>, pos: nat): (r: Result<Parsed<Option<T>>>)
  {
    if present then
      var x :- p(buf, pos);
      Ok(Parsed(Some(x.value), x.next))
    else Ok(Parsed(None, pos))
  }

  /** Every record p accepts occupies at least one byte and lies in the buffer. */
  ghost predicate Advances<T>(p: Parser<T>) {
    forall b: seq<uint8>, q: nat :: p(b, q).Ok? ==> q < p(b, q).value.next <= |b|
  }

  /** p always consumes exactly w bytes, and succeeds exactly when they are there. */
  ghost predicate FixedWidth<T>(p: Parser<T>, w: nat) {
    forall b: seq<uint8>, q: nat :: (p(b, q).Ok? <==> q + w <= |b|) && (p(b, q).Ok? ==> p(b, q).value.next == q + w)
  }

  /** What p returns depends only on the bytes it consumes: any buffer that
      holds the same bytes there yields the same result. */
  ghost predicate Framed<T>(p: Parser<T>) {
    forall b: seq<uint8>, b': seq<uint8>, q: nat :: p(b, q).Ok? && Agree(b, b', q, p(b, q).value.next) ==> p(b', q) == p(b, q)
  }

  /** Every value p returns satisfies P. */
  ghost predicate Yields<T>(p: Parser<T>, P: T -> bool) {
    forall b: seq<uint8>, q: nat :: p(b, q).Ok? ==> P(p(b, q).value.value)
  }

  /** p decodes the encoding enc(x) of every x in xs back to x, wherever it sits. */
  ghost predicate Decodes<T>(p: Parser<T>, enc: T -> seq<uint8>, xs: seq<T>) {
    forall x: T, b: seq<uint8>, q: nat {:trigger At(b, q, enc(x))} :: x in xs && At(b, q, enc(x)) ==> p(b, q) == Ok(Parsed(x, q + |enc(x)|))
  }

  /** The encodings of xs, one after another. */
  function ConcatMap<T>(enc: T -> seq<uint8>, xs: seq<T>): (d: seq<uint8>)
  {
    if |xs| == 0 then [] else enc(xs[0]) + ConcatMap(enc, xs[1..])
  }

  /** Encodings all w bytes long concatenate to w bytes per element. */
  lemma {:induction false} ConcatMapLength<T>(enc: T -> seq<uint8>, xs: seq<T>, w: nat)
    requires forall x :: x in xs ==> |enc(x)| == w
    ensures |ConcatMap(enc, xs)| == w * |xs|
  {
    if |xs| > 0 {
      var rest := xs[1..];
      assert forall x :: x in rest ==> x in xs;
      ConcatMapLength(enc, rest, w);
      assert xs[0] in xs;
      var n := |rest|;
      MulSucc(w, n);
      assert |ConcatMap(enc, xs)| == w + w * n;
    }
  }

  lemma MulSucc(w: nat, n: nat)
    ensures w * (n + 1) == w + w * n
  {
  }

  /** With w-byte encodings, element i sits w * i bytes into their concatenation. */
  lemma {:induction false} ConcatMapAt<T>(enc: T -> seq<uint8>, xs: seq<T>, w: nat, i: nat, b: seq<uint8>, p: nat)
    requires forall x :: x in xs ==> |enc(x)| == w
    requires i < |xs| && At(b, p, ConcatMap(enc, xs))
    ensures At(b, p + w * i, enc(xs[i]))
  {
    AtConcat(b, p, enc(xs[0]), ConcatMap(enc, xs[1..]));
    if i > 0 {
      assert forall x :: x in xs[1..] ==> x in xs;
      ConcatMapAt(enc, xs[1..], w, i - 1, b, p + w);
      assert p + w + w * (i - 1) == p + w * i;
    }
  }

  lemma {:induction false} ManyAdvances<T>(p: Parser<T>, b: seq<uint8>, q: nat, n: nat)
    requires Advances(p)
    requires ParseMany(p, b, q, n).Ok?
    ensures q <= ParseMany(p, b, q, n).value.next
    ensures n > 0 ==> q < ParseMany(p, b, q, n).value.next <= |b|
    decreases n
  {
    if n > 0 {
      var head := p(b, q).value;
      ManyAdvances(p, b, head.next, n - 1);
    }
  }

  lemma {:induction false} ManyFixedWidth<T>(p: Parser<T>, w: nat, b: seq<uint8>, q: nat, n: nat)
    requires FixedWidth(p, w)
    ensures ParseMany(p, b, q, n).Ok? <==> n == 0 || q + n * w <= |b|
    ensures ParseMany(p, b, q, n).Ok? ==> ParseMany(p, b, q, n).value.next == q + n * w
    decreases n
  {
    if n > 0 {
      ManyFixedWidth(p, w, b, q + w, n - 1);
      assert n * w == w + (n - 1) * w;
    }
  }

  lemma {:induction false} ManyYields<T>(p: Parser<T>, P: T -> bool, b: seq<uint8>, q: nat, n: nat)
    requires Yields(p, P)
    requires ParseMany(p, b, q, n).Ok?
    ensures forall i :: 0 <= i < n ==> P(ParseMany(p, b, q, n).value.value[i])
    decreases n
  {
    if n > 0 {
      var head := p(b, q).value;
      ManyYields(p, P, b, head.next, n - 1);
    }
  }

  lemma {:induction false} ManyFramed<T>(p: Parser<T>, b: seq<uint8>, b': seq<uint8>, q: nat, n: nat)
    requires Framed(p) && Advances(p)
    requires ParseMany(p, b, q, n).Ok?
    requires Agree(b, b', q, ParseMany(p, b, q, n).value.next)
    ensures ParseMany(p, b', q, n) == ParseMany(p, b, q, n)
    decreases n
  {
    if n > 0 {
      var head := p(b, q).value;
      ManyAdvances(p, b, head.next, n - 1);
      var tail := ParseMany(p, b, head.next, n - 1).value;
      assert Agree(b, b', q, head.next);
      assert p(b', q) == p(b, q);
      assert Agree(b, b', head.next, tail.next);
      ManyFramed(p, b, b', head.next, n - 1);
    }
  }

  /** One more record in front of a decoded list. */
  lemma ManyCons<T>(p: Parser<T>, b: seq<uint8>, q: nat, n: nat, x: T, m: nat, xs: seq<T>, e: nat)
    requires p(b, q) == Ok(Parsed(x, m))
    requires ParseMany(p, b, m, n) == Ok(Parsed(xs, e))
    ensures ParseMany(p, b, q, n + 1) == Ok(Parsed([x] + xs, e))
  {
  }

  lemma {:induction false} ManyRoundTrip<T>(p: Parser<T>, enc: T -> seq<uint8>, xs: seq<T>, b: seq<uint8>, q: nat)
    requires Decodes(p, enc, xs)
    requires At(b, q, ConcatMap(enc, xs))
    ensures ParseMany(p, b, q, |xs|) == Ok(Parsed(xs, q + |ConcatMap(enc, xs)|))
  {
    ManyRoundTripFrom(p, enc, xs, 0, b, q);
    assert xs[0..] == xs;
  }

  lemma {:induction false} ManyRoundTripFrom<T>(p: Parser<T>, enc: T -> seq<uint8>, xs: seq<T>, k: nat, b: seq<uint8>, q: nat)
    requires Decodes(p, enc, xs)
    requires k <= |xs|
    requires At(b, q, ConcatMap(enc, xs[k..]))
    ensures ParseMany(p, b, q, |xs| - k) == Ok(Parsed(xs[k..], q + |ConcatMap(enc, xs[k..])|))
    decreases |xs| - k
  {
    if k < |xs| {
      var x := xs[k];
      var n := q + |enc(x)|;
      assert xs[k..][1..] == xs[k + 1..];
      AtConcat(b, q, enc(x), ConcatMap(enc, xs[k + 1..]));
      assert p(b, q) == Ok(Parsed(x, n)) by {
        assert x in xs;
      }
      ManyRoundTripFrom(p, enc, xs, k + 1, b, n);
      ManyCons(p, b, q, |xs| - k - 1, x, n, xs[k + 1..], n + |ConcatMap(enc, xs[k + 1..])|);
      assert [x] + xs[k + 1..] == xs[k..];
    }
  }

  /** Each record p accepts occupies size(value) bytes. */
  ghost predicate Consumes<T>(p: Parser<T>, size: T -> nat) {
    forall b: seq<uint8>, q: nat :: p(b, q).Ok? ==> p(b, q).value.next == q + size(p(b, q).value.value)
  }

  /** Sum of size over xs. */
  function TotalSize<T>(size: T -> nat, xs: seq<T>): nat {
    if |xs| == 0 then 0 else size(xs[0]) + TotalSize(size, xs[1..])
  }

  lemma {:induction false} ManyConsumes<T>(p: Parser<T>, size: T -> nat, b: seq<uint8>, q: nat, n: nat)
    requires Consumes(p, size)
    requires ParseMany(p, b, q, n).Ok?
    ensures ParseMany(p, b, q, n).value.next == q + TotalSize(size, ParseMany(p, b, q, n).value.value)
    decreases n
  {
    if n > 0 {
      var head := p(b, q).value;
      ManyConsumes(p, size, b, head.next, n - 1);
      var xs := ParseMany(p, b, q, n).value.value;
      assert xs[1..] == ParseMany(p, b, head.next, n - 1).value.value;
    }
  }

  lemma ReadExactFramed(b: seq<uint8>, b': seq<uint8>, q: nat, n: nat)
    requires ReadExact(b, q, n).Ok? && Agree(b, b', q, q + n)
    ensures ReadExact(b', q, n) == ReadExact(b, q, n)
  {
    assert b'[q .. q + n] == b[q .. q + n];
  }

  lemma WordsParserWidth(k: nat)
    ensures FixedWidth(WordsParser(k), 4 * k)
    ensures Framed(WordsParser(k))
    ensures forall b: seq<uint8>, q: nat :: WordsParser(k)(b, q).Ok? ==> |WordsParser(k)(b, q).value.value| == k
  {
    forall b: seq<uint8>, b': seq<uint8>, q: nat | WordsParser(k)(b, q).Ok? && Agree(b, b', q, WordsParser(k)(b, q).value.next)
      ensures WordsParser(k)(b', q) == WordsParser(k)(b, q)
    {
      ReadExactFramed(b, b', q, 4 * k);
    }
  }
  /** An optional run of k float words. */
  lemma ReadIfWords(present: bool, k: nat, b: seq<uint8>, q: nat)
    ensures ReadIf(present, WordsParser(k), b, q) ==
              if !present then Ok(Parsed(None, q))
              else if q + 4 * k <= |b| then Ok(Parsed(Some(Words(b[q .. q + 4 * k])), q + 4 * k))
              else Err(ShortRead(q, 4 * k))
  {
  }

  /** An optional run of k u32 values. */
  lemma ReadIfUint32s(present: bool, k: nat, b: seq<uint8>, q: nat)
    ensures ReadIf(present, Uint32sParser(k), b, q) ==
              if !present then Ok(Parsed(None, q))
              else if q + 4 * k <= |b| then Ok(Parsed(Some(Uint32s(b[q .. q + 4 * k])), q + 4 * k))
              else Err(ShortRead(q, 4 * k))
  {
  }

  lemma CountedAdvances<T>(p: Parser<T>, b: seq<uint8>, q: nat)
    requires Advances(p)
    requires ParseCounted(p, b, q).Ok?
    ensures q < ParseCounted(p, b, q).value.next <= |b|
    ensures ParseCounted(p, b, q) == ParseMany(p, b, q + 1, b[q])
    ensures |ParseCounted(p, b, q).value.value| == b[q]
  {
    ManyAdvances(p, b, q + 1, b[q]);
  }

  /** A counted list holds fewer than 0x100 records, each satisfying what p yields. */
  lemma CountedYields<T>(p: Parser<T>, P: T -> bool, b: seq<uint8>, q: nat)
    requires Yields(p, P)
    requires ParseCounted(p, b, q).Ok?
    ensures |ParseCounted(p, b, q).value.value| < 0x100
    ensures forall i :: 0 <= i < |ParseCounted(p, b, q).value.value| ==> P(ParseCounted(p, b, q).value.value[i])
  {
    ManyYields(p, P, b, q + 1, b[q]);
  }

  lemma CountedConsumes<T>(p: Parser<T>, size: T -> nat, b: seq<uint8>, q: nat)
    requires Consumes(p, size)
    requires ParseCounted(p, b, q).Ok?
    ensures ParseCounted(p, b, q).value.next == q + 1 + TotalSize(size, ParseCounted(p, b, q).value.value)
  {
    ManyConsumes(p, size, b, q + 1, b[q]);
  }

  lemma CountedFramed<T>(p: Parser<T>, b: seq<uint8>, b': seq<uint8>, q: nat)
    requires Framed(p) && Advances(p)
    requires ParseCounted(p, b, q).Ok? && Agree(b, b', q, ParseCounted(p, b, q).value.next)
    ensures ParseCounted(p, b', q) == ParseCounted(p, b, q)
  {
    CountedAdvances(p, b, q);
    assert b'[q] == b[q];
    ManyFramed(p, b, b', q + 1, b[q]);
  }

  /** p's result on b survives in any buffer b' that holds b's bytes from q
      to b's end, when b' has the same length or p accepts it there too: p
      may look at where the buffer ends, but at no byte after b's end.
      Framed parsers have this; so does the source's index read. */
  ghost predicate PrefixStable<T>(p: Parser<T>) {
    forall b: seq<uint8>, b': seq<uint8>, q: nat ::
      p(b, q).Ok? && Agree(b, b', q, |b|) && (|b'| == |b| || p(b', q).Ok?) ==> p(b', q) == p(b, q)
  }

  lemma FramedPrefixStable<T>(p: Parser<T>)
    requires Framed(p) && Advances(p)
    ensures PrefixStable(p)
  {
    forall b: seq<uint8>, b': seq<uint8>, q: nat |
      p(b, q).Ok? && Agree(b, b', q, |b|) && (|b'| == |b| || p(b', q).Ok?)
      ensures p(b', q) == p(b, q)
    {
      assert Agree(b, b', q, p(b, q).value.next);
    }
  }

  lemma {:induction false} ManyPrefixStable<T>(p: Parser<T>, b: seq<uint8>, b': seq<uint8>, q: nat, n: nat)
    requires PrefixStable(p) && Advances(p)
    requires ParseMany(p, b, q, n).Ok? && Agree(b, b', q, |b|)
    requires |b'| == |b| || ParseMany(p, b', q, n).Ok?
    ensures ParseMany(p, b', q, n) == ParseMany(p, b, q, n)
    decreases n
  {
    if n > 0 {
      var head := p(b, q).value;
      assert p(b', q) == p(b, q);
      assert Agree(b, b', head.next, |b|);
      ManyPrefixStable(p, b, b', head.next, n - 1);
    }
  }

  lemma CountedPrefixStable<T>(p: Parser<T>, b: seq<uint8>, b': seq<uint8>, q: nat)
    requires PrefixStable(p) && Advances(p)
    requires ParseCounted(p, b, q).Ok? && Agree(b, b', q, |b|)
    requires |b'| == |b| || ParseCounted(p, b', q).Ok?
    ensures ParseCounted(p, b', q) == ParseCounted(p, b, q)
  {
    assert b'[q] == b[q];
    ManyPrefixStable(p, b, b', q + 1, b[q]);
  }

  /** A parser that agrees with p wherever p succeeds repeats to a parser
      that agrees with p's repetition wherever that succeeds. */
  lemma {:induction false} ManyRefines<T>(p: Parser<T>, p': Parser<T>, b: seq<uint8>, q: nat, n: nat)
    requires forall b: seq<uint8>, q: nat :: p(b, q).Ok? ==> p'(b, q) == p(b, q)
    requires ParseMany(p, b, q, n).Ok?
    ensures ParseMany(p', b, q, n) == ParseMany(p, b, q, n)
    decreases n
  {
    if n > 0 {
      ManyRefines(p, p', b, p(b, q).value.next, n - 1);
    }
  }

  /** The i-th record of a fixed-width repetition is the one p reads i * w
      bytes on. */
  lemma {:induction false} ManyFixedWidthValues<T>(p: Parser<T>, w: nat, b: seq<uint8>, q: nat, n: nat)
    requires FixedWidth(p, w)
    requires ParseMany(p, b, q, n).Ok?
    ensures forall i :: 0 <= i < n ==>
              p(b, q + i * w).Ok? && ParseMany(p, b, q, n).value.value[i] == p(b, q + i * w).value.value
    decreases n
  {
    if n > 0 {
      ManyFixedWidthValues(p, w, b, q + w, n - 1);
      var xs := ParseMany(p, b, q, n).value.value;
      forall i | 0 <= i < n
        ensures p(b, q + i * w).Ok? && xs[i] == p(b, q + i * w).value.value
      {
        if i > 0 {
          assert q + i * w == (q + w) + (i - 1) * w;
        }
      }
    }
  }

  /** A count byte followed by the encodings of xs decodes to xs, ending at e. */
  lemma CountedRoundTrip<T>(p: Parser<T>, enc: T -> seq<uint8>, xs: seq<T>, b: seq<uint8>, q: nat, e: nat)
    requires Decodes(p, enc, xs) && |xs| < 0x100
    requires q < |b| && b[q] == |xs| && At(b, q + 1, ConcatMap(enc, xs))
    requires e == q + 1 + |ConcatMap(enc, xs)|
    ensures ParseCounted(p, b, q) == Ok(Parsed(xs, e))
  {
    ManyRoundTrip(p, enc, xs, b, q + 1);
  }
}
