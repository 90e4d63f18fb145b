/** The frame decoder of `src/data_loader.py`: `read_and_decode`, which re-reads
    with the undecodable bytes kept in front until the text decodes or a byte
    ceiling is passed, and the `while True` loop of `load_data` that calls it until
    it hands back an empty chunk.

    The zstd stream reader is abstracted into a `Source`: the blocks that its
    successive `read(chunk_size)` calls return. The retry logic is stated for
    any text decoder; `bytes.decode()` itself is `Utf8.Decode`, which has the
    properties the loop relies on (`Compositional`, shown by
    `Utf8Compositional`). */
module FrameDecoder {
  import opened Options
  import opened Utf8
  import opened Seqs

  /** The decompressed stream as the reader hands it out, one block per `read`
      call. Once the blocks are used up, every further read returns no bytes. */
  type Source = seq<seq<Byte>>

  function Read(src: Source, pos: nat): seq<Byte>
  {
    if pos < |src| then src[pos] else []
  }

  /** The bytes of `k` successive reads, starting with read number `pos`. */
  function Gather(src: Source, pos: nat, k: nat): seq<Byte>
    decreases k
  {
    if k == 0 then [] else Read(src, pos) + Gather(src, pos + 1, k - 1)
  }

  lemma {:induction false} GatherSplit(src: Source, pos: nat, a: nat, b: nat)
    ensures Gather(src, pos, a + b) == Gather(src, pos, a) + Gather(src, pos + a, b)
    decreases a
  {
    if a > 0 {
      GatherSplit(src, pos + 1, a - 1, b);
    }
  }

  /** A text decoder: `None` where `bytes.decode()` raises. */
  type Decoder = seq<Byte> -> Option<string>

  /** The three properties of a decoder the `load_data` loop relies on: the
      empty input decodes to the empty text, no other input does, and decoding
      two decodable inputs one after the other is decoding their
      concatenation. */
  ghost predicate Compositional(decode: Decoder)
  {
    && decode([]) == Some("")
    && (forall bs :: OnlyEmptyIsBlank(decode, bs))
    && (forall a, b :: DecodesPiecewise(decode, a, b))
  }

  /** One instance of the second property (only the empty input decodes to
      the empty text), named so that it is only brought to bear where a proof
      asks for it. */
  ghost predicate OnlyEmptyIsBlank(decode: Decoder, bs: seq<Byte>)
  {
    decode(bs) == Some("") ==> bs == []
  }

  /** One instance of the third property. */
  ghost predicate DecodesPiecewise(decode: Decoder, a: seq<Byte>, b: seq<Byte>)
  {
    decode(a).Some? && decode(b).Some? ==> decode(a + b) == Some(decode(a).value + decode(b).value)
  }

  /** A decoder that drops and invents nothing: whatever text it produces
      re-encodes to exactly its input. */
  ghost predicate Faithful(decode: Decoder)
  {
    forall bs :: decode(bs).Some? ==> Encode(decode(bs).value) == bs
  }

  /** Strict UTF-8 decoding is faithful. */
  lemma Utf8Faithful()
    ensures Faithful(Decode)
  {
    forall bs | Decode(bs).Some?
      ensures Encode(Decode(bs).value) == bs
    {
      EncodeDecode(bs);
    }
  }

  /** Strict UTF-8 decoding is compositional. */
  lemma Utf8Compositional()
    ensures Compositional(Decode)
  {
    forall bs
      ensures OnlyEmptyIsBlank(Decode, bs)
    {
      if Decode(bs) == Some("") {
        EncodeDecode(bs);
      }
    }
    forall a, b
      ensures DecodesPiecewise(Decode, a, b)
    {
      if Decode(a).Some? && Decode(b).Some? {
        DecodeAppend(a, b);
      }
    }
  }

  /** Result of one `read_and_decode` call. `next` is the number of the next
      block the reader would hand out; `WindowExceeded` is the `UnicodeError` it
      raises, with the `bytes_read` figure of its message. */
  datatype Decoded =
    | Decoded(text: string, next: nat)
    | WindowExceeded(bytesRead: int, next: nat)

  /** The bytes an attempt decodes once it has read `k` blocks after the
      undecodable bytes `prev` it was handed. */
  function Attempt(prev: seq<Byte>, src: Source, pos: nat, k: nat): seq<Byte>
  {
    prev + Gather(src, pos, k)
  }

  /** Every attempt that had read `1..k` blocks after `prev` failed to decode. */
  predicate FailsUpTo(decode: Decoder, prev: seq<Byte>, src: Source, pos: nat, k: nat)
  {
    forall j :: 1 <= j <= k ==> decode(Attempt(prev, src, pos, j)).None?
  }

  /** The `bytes_read` counter after `k` more reads of `chunkSize` bytes each. */
  function Requested(bytesRead: int, k: nat, chunkSize: nat): int
    decreases k
  {
    if k == 0 then bytesRead else Requested(bytesRead + chunkSize, k - 1, chunkSize)
  }

  lemma {:induction false} RequestedIsProduct(bytesRead: int, k: nat, chunkSize: nat)
    ensures Requested(bytesRead, k, chunkSize) == bytesRead + k * chunkSize
    decreases k
  {
    if k > 0 {
      RequestedIsProduct(bytesRead + chunkSize, k - 1, chunkSize);
      assert k * chunkSize == chunkSize + (k - 1) * chunkSize;
    }
  }

  /** `read_and_decode(reader, chunk_size, max_window_size, previous_chunk,
      bytes_read)`. With `k` the number of blocks it reads: the first `k - 1`
      attempts fail to decode, every retry was allowed by the ceiling, and it
      returns the decoding of the `k`-th attempt's bytes (the earlier undecoded
      bytes in front) or raises once `bytes_read` exceeds the ceiling. */
  function ReadAndDecode(decode: Decoder, src: Source, pos: nat, chunkSize: nat, maxWindowSize: int,
                         previous: Option<seq<Byte>>, bytesRead: int): (r: Decoded)
    requires chunkSize > 0
    ensures Answers(decode, src, pos, chunkSize, maxWindowSize, previous.GetOr([]), bytesRead, r)
    decreases maxWindowSize - bytesRead
  {
    var prev := previous.GetOr([]);
    var chunk := prev + Read(src, pos);
    assert Attempt(prev, src, pos, 1) == chunk;
    var read := bytesRead + chunkSize;
    match decode(chunk)
    case Some(text) => Decoded(text, pos + 1)
    case None =>
      if read > maxWindowSize then WindowExceeded(read, pos + 1)
      else
        var r := ReadAndDecode(decode, src, pos + 1, chunkSize, maxWindowSize, Some(chunk), read);
        RetryStep(decode, src, pos, chunkSize, maxWindowSize, prev, bytesRead, r);
        r
  }

  /** What a call starting at block `pos`, handed the undecodable bytes `prev`
      and the counter `bytesRead`, may return as `r`: it read at least one
      block; all its earlier attempts failed to decode; each retry was allowed
      by the ceiling; it returns text exactly when its last attempt decodes, and
      then returns that decoding (the earlier undecoded bytes in front); or it
      raises once `bytes_read` exceeds the ceiling. */
  predicate Answers(decode: Decoder, src: Source, pos: nat, chunkSize: nat, maxWindowSize: int,
                    prev: seq<Byte>, bytesRead: int, r: Decoded)
  {
    && pos < r.next
    && FailsUpTo(decode, prev, src, pos, r.next - pos - 1)
    && (r.next - pos == 1 || Requested(bytesRead, r.next - pos - 1, chunkSize) <= maxWindowSize)
    && (r.Decoded? <==> decode(Attempt(prev, src, pos, r.next - pos)).Some?)
    && (r.Decoded? ==> decode(Attempt(prev, src, pos, r.next - pos)) == Some(r.text))
    && (r.WindowExceeded? ==>
          r.bytesRead == Requested(bytesRead, r.next - pos, chunkSize) && r.bytesRead > maxWindowSize)
  }

  /** What a retry returns, seen from the call that made it: its attempts are
      this call's attempts with one more block read in front. */
  lemma RetryStep(decode: Decoder, src: Source, pos: nat, chunkSize: nat, maxWindowSize: int,
                  prev: seq<Byte>, bytesRead: int, r: Decoded)
    requires decode(prev + Read(src, pos)).None?
    requires bytesRead + chunkSize <= maxWindowSize
    requires Answers(decode, src, pos + 1, chunkSize, maxWindowSize, prev + Read(src, pos), bytesRead + chunkSize, r)
    ensures Answers(decode, src, pos, chunkSize, maxWindowSize, prev, bytesRead, r)
  {
    var k := r.next - (pos + 1);
    FailsUpToShift(decode, prev, src, pos, k - 1);
    ShiftAttempt(prev, src, pos, k);
  }

  /** Reading `j + 1` blocks after `prev` is reading one block, then `j` more
      after the grown prefix. */
  lemma ShiftAttempt(prev: seq<Byte>, src: Source, pos: nat, j: nat)
    ensures Attempt(prev, src, pos, j + 1) == Attempt(prev + Read(src, pos), src, pos + 1, j)
  {
  }

  lemma FailsUpToShift(decode: Decoder, prev: seq<Byte>, src: Source, pos: nat, k: nat)
    requires decode(prev + Read(src, pos)).None?
    requires FailsUpTo(decode, prev + Read(src, pos), src, pos + 1, k)
    ensures FailsUpTo(decode, prev, src, pos, k + 1)
  {
    forall j | 1 <= j <= k + 1
      ensures decode(Attempt(prev, src, pos, j)).None?
    {
      ShiftAttempt(prev, src, pos, j - 1);
      if j == 1 {
        assert Attempt(prev + Read(src, pos), src, pos + 1, 0) == prev + Read(src, pos);
      }
    }
  }

  /** The number of blocks one top-level call reads is bounded by the ceiling:
      at most `max_window_size / chunk_size + 1`. */
  lemma ReadsBounded(decode: Decoder, src: Source, pos: nat, chunkSize: nat, maxWindowSize: int)
    requires chunkSize > 0
    ensures var r := ReadAndDecode(decode, src, pos, chunkSize, maxWindowSize, None, 0);
            r.next - pos <= (if maxWindowSize < 0 then 0 else maxWindowSize / chunkSize) + 1
  {
    var r := ReadAndDecode(decode, src, pos, chunkSize, maxWindowSize, None, 0);
    RetriesBounded(r.next - pos, chunkSize, maxWindowSize);
  }

  lemma RetriesBounded(k: nat, chunkSize: nat, maxWindowSize: int)
    requires chunkSize > 0 && k >= 1
    requires k == 1 || Requested(0, k - 1, chunkSize) <= maxWindowSize
    ensures k <= (if maxWindowSize < 0 then 0 else maxWindowSize / chunkSize) + 1
  {
    if k > 1 {
      RequestedIsProduct(0, k - 1, chunkSize);
      QuotientBound(k - 1, chunkSize, maxWindowSize);
    }
  }

  lemma QuotientBound(n: nat, c: nat, m: int)
    requires c > 0 && n * c <= m
    ensures n <= m / c
  {
    var q := m / c;
    assert m == q * c + m % c && m % c < c;
    if n > q {
      MulMono(q + 1, n, c);
    }
  }

  /** Multiplying by a non-negative factor keeps the order. */
  lemma MulMono(a: int, b: int, c: nat)
    requires a <= b
    ensures a * c <= b * c
  {
    assert b * c - a * c == (b - a) * c;
  }

  /** With a faithful decoder (strict UTF-8 is one), a successful call hands
      back exactly the bytes it read, in read order: nothing undecodable is
      dropped and nothing is invented. */
  lemma DecodedKeepsBytes(decode: Decoder, src: Source, pos: nat, chunkSize: nat, maxWindowSize: int)
    requires chunkSize > 0 && Faithful(decode)
    ensures var r := ReadAndDecode(decode, src, pos, chunkSize, maxWindowSize, None, 0);
            r.Decoded? ==> Encode(r.text) == Gather(src, pos, r.next - pos)
  {
    var r := ReadAndDecode(decode, src, pos, chunkSize, maxWindowSize, None, 0);
    if r.Decoded? {
      var g := Gather(src, pos, r.next - pos);
      assert Attempt([], src, pos, r.next - pos) == g;
      assert decode(g) == Some(r.text);
    }
  }

  /** A character whose bytes are split across two blocks is still decoded, as
      long as the ceiling admits one retry. */
  lemma SplitCharacterRecovered(decode: Decoder, src: Source, pos: nat, chunkSize: nat, maxWindowSize: int)
    requires chunkSize > 0 && chunkSize <= maxWindowSize
    requires decode(Read(src, pos)).None?
    requires decode(Read(src, pos) + Read(src, pos + 1)).Some?
    ensures ReadAndDecode(decode, src, pos, chunkSize, maxWindowSize, None, 0)
            == Decoded(decode(Read(src, pos) + Read(src, pos + 1)).value, pos + 2)
  {
    var chunk := Read(src, pos);
    assert Option<seq<Byte>>.None.GetOr([]) + chunk == chunk;
    var second := ReadAndDecode(decode, src, pos + 1, chunkSize, maxWindowSize, Some(chunk), chunkSize);
    assert second == Decoded(decode(chunk + Read(src, pos + 1)).value, pos + 2);
  }

  /** The example of a two-byte `é` cut after its first byte: the first read
      (`R` and the lead byte) does not decode as UTF-8, the retry yields `"Ré"`. */
  lemma SplitCharacterExample(src: Source)
    requires src == [[0x52, 0xC3], [0xA9]]
    ensures ReadAndDecode(Decode, src, 0, 2, 4, None, 0) == Decoded("R\U{E9}", 2)
  {
    SampleBlocks(src);
    SplitCharacterRecovered(Decode, src, 0, 2, 4);
  }

  /** The two blocks of the example, read one by one. */
  lemma SampleBlocks(src: Source)
    requires src == [[0x52, 0xC3], [0xA9]]
    ensures Decode(Read(src, 0)).None?
    ensures Decode(Read(src, 0) + Read(src, 1)) == Some("R\U{E9}")
  {
    SampleDecodes();
    SampleCutFails();
    assert Read(src, 0) + Read(src, 1) == [0x52, 0xC3, 0xA9];
  }

  /** `R` followed by the two bytes of `é` decodes to `"Ré"`. */
  lemma SampleDecodes()
    ensures Decode([0x52, 0xC3, 0xA9]) == Some("R\U{E9}")
  {
    var e: seq<Byte> := [0xC3, 0xA9];
    var whole: seq<Byte> := [0x52, 0xC3, 0xA9];
    assert SeqLen(e) == 2 && FirstScalar(e) == 0xE9 && Decode(e[2..]) == Some("");
    var c := FirstScalar(e) as char;
    assert [c] + "" == "\U{E9}";
    assert Decode(e) == Some("\U{E9}");
    assert whole[1..] == e;
    assert ['R'] + "\U{E9}" == "R\U{E9}";
  }

  /** `R` followed by the lead byte of `é` alone does not decode. */
  lemma SampleCutFails()
    ensures Decode([0x52, 0xC3]) == None
  {
    assert Decode([0xC3]) == None;
    assert [0x52, 0xC3][1..] == [0xC3];
  }

  /** With the ceiling below the block size no retry happens: the split
      character is fatal. */
  lemma SplitCharacterNoRetry()
    ensures ReadAndDecode(Decode, [[0x52, 0xC3], [0xA9]], 0, 2, 1, None, 0) == WindowExceeded(2, 1)
  {
    assert Decode([0xC3]) == None;
    assert [0x52, 0xC3][1..] == [0xC3];
    assert Decode([0x52, 0xC3]) == None;
    assert [] + [0x52, 0xC3] == [0x52, 0xC3];
  }

  /** The output of the `while True` loop of `load_data` before framing: the
      non-empty chunks decoded in order, the number of the block at which the
      last `read_and_decode` call started, and, when that call raised, the
      `bytes_read` figure it raised with. */
  datatype Stream = Stream(chunks: seq<string>, last: nat, failure: Option<int>)

  /** The `while True` loop of `load_data` from block `pos` on, as the sequence
      of its top-level `read_and_decode` calls: each call's text is the next
      chunk, until a call returns the empty string (the loop breaks there) or
      raises (the error leaves the loop). The blocks read before the last call
      decode to the chunks; the last call is the one that ended the loop. */
  function Calls(decode: Decoder, src: Source, pos: nat, chunkSize: nat, maxWindowSize: int): (s: Stream)
    requires chunkSize > 0 && Compositional(decode)
    ensures Ran(decode, src, pos, chunkSize, maxWindowSize, s)
    decreases if pos <= |src| then |src| - pos + 1 else 0
  {
    var r := ReadAndDecode(decode, src, pos, chunkSize, maxWindowSize, None, 0);
    if r.WindowExceeded? then
      RanRaise(decode, src, pos, chunkSize, maxWindowSize, r);
      Stream([], pos, Some(r.bytesRead))
    else if r.text == "" then
      RanEmpty(decode, src, pos, chunkSize, maxWindowSize, r);
      Stream([], pos, None)
    else
      CallAdvances(decode, src, pos, chunkSize, maxWindowSize, r);
      var rest := Calls(decode, src, r.next, chunkSize, maxWindowSize);
      RanCons(decode, src, pos, chunkSize, maxWindowSize, r, rest);
      Stream([r.text] + rest.chunks, rest.last, rest.failure)
  }

  /** What the calls from block `pos` on produce: non-empty chunks that the
      blocks read before the last call decode to, and a last call that either
      returned the empty string after one block or raised with the recorded
      figure. */
  ghost predicate Ran(decode: Decoder, src: Source, pos: nat, chunkSize: nat, maxWindowSize: int, s: Stream)
  {
    && chunkSize > 0
    && pos <= s.last
    && "" !in s.chunks
    && decode(Gather(src, pos, s.last - pos)) == Some(Flatten(s.chunks))
    && (s.failure.None? ==>
          ReadAndDecode(decode, src, s.last, chunkSize, maxWindowSize, None, 0) == Decoded("", s.last + 1))
    && (s.failure.Some? ==>
          Ends(ReadAndDecode(decode, src, s.last, chunkSize, maxWindowSize, None, 0), s.failure.value))
  }

  lemma RanRaise(decode: Decoder, src: Source, pos: nat, chunkSize: nat, maxWindowSize: int, r: Decoded)
    requires chunkSize > 0 && Compositional(decode)
    requires r == ReadAndDecode(decode, src, pos, chunkSize, maxWindowSize, None, 0) && r.WindowExceeded?
    ensures Ran(decode, src, pos, chunkSize, maxWindowSize, Stream([], pos, Some(r.bytesRead)))
  {
    assert Gather(src, pos, 0) == [];
  }

  lemma RanEmpty(decode: Decoder, src: Source, pos: nat, chunkSize: nat, maxWindowSize: int, r: Decoded)
    requires chunkSize > 0 && Compositional(decode)
    requires r == ReadAndDecode(decode, src, pos, chunkSize, maxWindowSize, None, 0)
    requires r.Decoded? && r.text == ""
    ensures Ran(decode, src, pos, chunkSize, maxWindowSize, Stream([], pos, None))
  {
    FreshAnswers(decode, src, pos, chunkSize, maxWindowSize, r);
    FirstReadEmpty(decode, src, pos, r.next - pos);
    EmptyCallReadsOne(decode, src, pos, chunkSize, maxWindowSize, r);
    assert Gather(src, pos, 0) == [];
  }

  /** A call that returns text that is not empty started inside the source
      and moved past its first block. */
  lemma CallAdvances(decode: Decoder, src: Source, pos: nat, chunkSize: nat, maxWindowSize: int, r: Decoded)
    requires chunkSize > 0 && Compositional(decode)
    requires r == ReadAndDecode(decode, src, pos, chunkSize, maxWindowSize, None, 0)
    requires r.Decoded? && r.text != ""
    ensures pos < |src| && pos < r.next
  {
    FreshAnswers(decode, src, pos, chunkSize, maxWindowSize, r);
    FirstReadEmpty(decode, src, pos, r.next - pos);
  }

  lemma RanCons(decode: Decoder, src: Source, pos: nat, chunkSize: nat, maxWindowSize: int, r: Decoded, rest: Stream)
    requires chunkSize > 0 && Compositional(decode)
    requires r == ReadAndDecode(decode, src, pos, chunkSize, maxWindowSize, None, 0)
    requires r.Decoded? && r.text != ""
    requires Ran(decode, src, r.next, chunkSize, maxWindowSize, rest)
    ensures Ran(decode, src, pos, chunkSize, maxWindowSize, Stream([r.text] + rest.chunks, rest.last, rest.failure))
  {
    FreshAnswers(decode, src, pos, chunkSize, maxWindowSize, r);
    RanPrepend(decode, src, pos, r.next, chunkSize, maxWindowSize, r.text, rest);
  }

  /** A non-empty text decoded from the blocks `pos` to `next`, put in front
      of a run from `next` on, makes a run from `pos` on. */
  lemma RanPrepend(decode: Decoder, src: Source, pos: nat, next: nat, chunkSize: nat, maxWindowSize: int,
                   text: string, rest: Stream)
    requires Compositional(decode)
    requires pos < next && text != ""
    requires decode(Gather(src, pos, next - pos)) == Some(text)
    requires Ran(decode, src, next, chunkSize, maxWindowSize, rest)
    ensures Ran(decode, src, pos, chunkSize, maxWindowSize, Stream([text] + rest.chunks, rest.last, rest.failure))
  {
    assert DecodesPiecewise(decode, Gather(src, pos, next - pos), Gather(src, next, rest.last - next));
    CallsStep(decode, src, pos, next, rest.last, text, rest.chunks);
    assert "" !in [text] + rest.chunks;
  }

  /** `r` is a raise with the figure `bytesRead`. */
  predicate Ends(r: Decoded, bytesRead: int)
  {
    r.WindowExceeded? && r.bytesRead == bytesRead
  }

  /** A call that returns the empty string read one empty block and nothing
      more. */
  lemma EmptyCallReadsOne(decode: Decoder, src: Source, pos: nat, chunkSize: nat, maxWindowSize: int, r: Decoded)
    requires Compositional(decode) && Exhausted(src, pos)
    requires Answers(decode, src, pos, chunkSize, maxWindowSize, [], 0, r)
    requires r.Decoded? && r.text == ""
    ensures r == Decoded("", pos + 1)
  {
    assert Attempt([], src, pos, 1) == [];
    assert decode(Attempt([], src, pos, 1)).Some?;
  }

  /** One more call's text in front of the chunks of the calls after it. */
  lemma CallsStep(decode: Decoder, src: Source, pos: nat, next: nat, last: nat,
                  text: string, chunks: seq<string>)
    requires pos <= next <= last
    requires DecodesPiecewise(decode, Gather(src, pos, next - pos), Gather(src, next, last - next))
    requires decode(Gather(src, pos, next - pos)) == Some(text)
    requires decode(Gather(src, next, last - next)) == Some(Flatten(chunks))
    ensures decode(Gather(src, pos, last - pos)) == Some(Flatten([text] + chunks))
  {
    FlattenCons(text, chunks);
    var n1, n2 := next - pos, last - next;
    GatherSplit(src, pos, n1, n2);
    assert n1 + n2 == last - pos && pos + n1 == next;
  }

  /** The `while True` loop of `load_data`: top-level `read_and_decode` calls
      until one returns the empty string or raises, exactly as `Calls`
      describes them. */
  method DecodeChunks(decode: Decoder, src: Source, pos: nat, chunkSize: nat, maxWindowSize: int)
    returns (s: Stream)
    requires chunkSize > 0 && Compositional(decode)
    ensures s == Calls(decode, src, pos, chunkSize, maxWindowSize)
    ensures "" !in s.chunks
    ensures decode(Gather(src, pos, s.last - pos)) == Some(Flatten(s.chunks))
    ensures s.failure.None? ==> Exhausted(src, s.last)
    ensures s.failure.Some? ==> s.failure.value > maxWindowSize
  {
    var chunks: seq<string> := [];
    var cur := pos;
    while true
      invariant pos <= cur
      invariant Continues(Calls(decode, src, pos, chunkSize, maxWindowSize), chunks,
                          Calls(decode, src, cur, chunkSize, maxWindowSize))
      decreases if cur <= |src| then |src| - cur else 0
    {
      var r := FirstCall(decode, src, cur, chunkSize, maxWindowSize);
      CallsUnfold(decode, src, cur, chunkSize, maxWindowSize, r);
      if r.WindowExceeded? {
        s := Stream(chunks, cur, Some(r.bytesRead));
        assert chunks + [] == chunks;
        break;
      }
      if r.text == "" {
        s := Stream(chunks, cur, None);
        assert chunks + [] == chunks;
        break;
      }
      CallAdvances(decode, src, cur, chunkSize, maxWindowSize, r);
      ContinuesStep(Calls(decode, src, pos, chunkSize, maxWindowSize), chunks, r.text,
                    Calls(decode, src, r.next, chunkSize, maxWindowSize));
      chunks := chunks + [r.text];
      cur := r.next;
    }
    assert s == Calls(decode, src, pos, chunkSize, maxWindowSize);
    RanFacts(decode, src, pos, chunkSize, maxWindowSize, s);
  }

  /** One step of `Calls`: the call at `cur` either ends the loop or puts its
      text in front of the calls after it. */
  lemma CallsUnfold(decode: Decoder, src: Source, cur: nat, chunkSize: nat, maxWindowSize: int, r: Decoded)
    requires chunkSize > 0 && Compositional(decode)
    requires r == ReadAndDecode(decode, src, cur, chunkSize, maxWindowSize, None, 0)
    ensures r.WindowExceeded? ==> Calls(decode, src, cur, chunkSize, maxWindowSize) == Stream([], cur, Some(r.bytesRead))
    ensures r.Decoded? && r.text == "" ==> Calls(decode, src, cur, chunkSize, maxWindowSize) == Stream([], cur, None)
    ensures r.Decoded? && r.text != "" ==>
              var rest := Calls(decode, src, r.next, chunkSize, maxWindowSize);
              Calls(decode, src, cur, chunkSize, maxWindowSize) == Stream([r.text] + rest.chunks, rest.last, rest.failure)
  {
  }

  /** The facts about a run of the loop that its callers use: the chunks are
      not empty and are the decoding of the blocks read before the last call; a
      run that did not raise stopped at an empty block, and one that raised had
      passed the ceiling. */
  lemma RanFacts(decode: Decoder, src: Source, pos: nat, chunkSize: nat, maxWindowSize: int, s: Stream)
    requires chunkSize > 0 && Compositional(decode)
    requires Ran(decode, src, pos, chunkSize, maxWindowSize, s)
    ensures "" !in s.chunks
    ensures decode(Gather(src, pos, s.last - pos)) == Some(Flatten(s.chunks))
    ensures s.failure.None? ==> Exhausted(src, s.last)
    ensures s.failure.Some? ==> s.failure.value > maxWindowSize
  {
    var r := ReadAndDecode(decode, src, s.last, chunkSize, maxWindowSize, None, 0);
    FreshAnswers(decode, src, s.last, chunkSize, maxWindowSize, r);
    if s.failure.None? {
      FirstReadEmpty(decode, src, s.last, 1);
    }
  }

  /** `whole` is the chunks so far followed by the stream of the calls still
      to come. */
  predicate Continues(whole: Stream, chunks: seq<string>, rest: Stream)
  {
    whole == Stream(chunks + rest.chunks, rest.last, rest.failure)
  }

  lemma ContinuesStep(whole: Stream, chunks: seq<string>, text: string, rest: Stream)
    requires Continues(whole, chunks, Stream([text] + rest.chunks, rest.last, rest.failure))
    ensures Continues(whole, chunks + [text], rest)
  {
    assert chunks + ([text] + rest.chunks) == (chunks + [text]) + rest.chunks;
  }

  /** `read_and_decode(reader, chunk_size, max_window_size)` as `load_data` calls
      it, with no bytes carried over and the counter at zero: on success the
      text is the decoding of all the blocks the call read; a raise comes only
      after every attempt failed and the counter passed the ceiling. */
  method FirstCall(decode: Decoder, src: Source, pos: nat, chunkSize: nat, maxWindowSize: int)
    returns (r: Decoded)
    requires chunkSize > 0
    ensures r == ReadAndDecode(decode, src, pos, chunkSize, maxWindowSize, None, 0)
    ensures Answers(decode, src, pos, chunkSize, maxWindowSize, [], 0, r)
    ensures r.Decoded? ==> decode(Gather(src, pos, r.next - pos)) == Some(r.text)
    ensures r.WindowExceeded? ==> decode(Gather(src, pos, r.next - pos)).None? && r.bytesRead > maxWindowSize
  {
    r := ReadAndDecode(decode, src, pos, chunkSize, maxWindowSize, None, 0);
    FreshAnswers(decode, src, pos, chunkSize, maxWindowSize, r);
  }

  /** An answer to a call handed no bytes is about the blocks it read alone. */
  lemma FreshAnswers(decode: Decoder, src: Source, pos: nat, chunkSize: nat, maxWindowSize: int, r: Decoded)
    requires Answers(decode, src, pos, chunkSize, maxWindowSize, Option<seq<Byte>>.None.GetOr([]), 0, r)
    ensures Answers(decode, src, pos, chunkSize, maxWindowSize, [], 0, r)
    ensures pos < r.next
    ensures r.Decoded? ==> decode(Gather(src, pos, r.next - pos)) == Some(r.text)
    ensures r.WindowExceeded? ==> decode(Gather(src, pos, r.next - pos)).None? && r.bytesRead > maxWindowSize
  {
    assert Attempt([], src, pos, r.next - pos) == Gather(src, pos, r.next - pos);
  }

  predicate Exhausted(src: Source, pos: nat)
  {
    Read(src, pos) == []
  }

  /** Reads that together decode to the empty text began with an empty block;
      past the end of the source every block is empty, so the text is empty. */
  lemma FirstReadEmpty(decode: Decoder, src: Source, pos: nat, k: nat)
    requires Compositional(decode) && k >= 1
    requires decode(Gather(src, pos, k)).Some?
    ensures decode(Gather(src, pos, k)) == Some("") ==> Exhausted(src, pos)
    ensures decode(Gather(src, pos, k)) != Some("") ==> pos < |src|
    decreases k
  {
    if pos >= |src| {
      EmptyTail(src, pos, k);
    }
    if k > 0 {
      assert OnlyEmptyIsBlank(decode, Gather(src, pos, k));
    }
  }

  lemma {:induction false} EmptyTail(src: Source, pos: nat, k: nat)
    requires pos >= |src|
    ensures Gather(src, pos, k) == []
    decreases k
  {
    if k > 0 {
      EmptyTail(src, pos + 1, k - 1);
    }
  }
}
