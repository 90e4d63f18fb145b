/** `load_data` of `src/data_loader.py` end to end: decode the decompressed
    blocks of one file with `read_and_decode` in blocks of 2**27 bytes under a
    ceiling of 2**30 bytes, and frame the decoded text into stripped lines. */
module Loader {
  import opened Options
  import opened Text
  import opened Seqs
  import opened Utf8
  import opened FrameDecoder
  import opened LineFramer

  /** The `chunk_size` `load_data` passes: 2**27 bytes. */
  const ReadSize: nat := 0x800_0000

  /** The `max_window_size` `load_data` passes: (2**29) * 2 bytes. */
  const MaxWindow: int := 0x4000_0000

  /** The lines one file yields, the number of blocks read before the last
      `read_and_decode` call, and the `bytes_read` figure of the `UnicodeError`
      that call raised, if it did. */
  datatype Loaded = Loaded(lines: seq<string>, consumed: nat, failure: Option<int>)

  /** What `load_data` yields for `src` when `decode` is `bytes.decode()`: the
      loop ran exactly the calls `Calls` describes, stopping at the block where
      the first call returned the empty string or raised; the blocks read
      before that call decode, and the lines are the newline-terminated pieces
      of their text, stripped, in order. */
  ghost predicate LoadedFrom(decode: Decoder, src: Source, l: Loaded)
  {
    && Compositional(decode)
    && var s := Calls(decode, src, 0, ReadSize, MaxWindow);
       && l.consumed == s.last && l.failure == s.failure
       && decode(Gather(src, 0, l.consumed)).Some?
       && var parts := Split(decode(Gather(src, 0, l.consumed)).value, '\n');
          && |l.lines| == |parts| - 1
          && (forall k :: 0 <= k < |l.lines| ==> l.lines[k] == Strip(parts[k]))
          && (l.failure.None? ==> Exhausted(src, l.consumed))
          && (l.failure.Some? ==> l.failure.value > MaxWindow)
  }

  method LoadData(src: Source) returns (l: Loaded)
    ensures LoadedFrom(Decode, src, l)
    ensures forall k :: 0 <= k < |l.lines| ==> IsStripped(l.lines[k]) && '\n' !in l.lines[k]
  {
    Utf8Compositional();
    l := LoadWith(Decode, src);
  }

  /** The same run for any decoder with the properties the loop relies on. */
  method LoadWith(decode: Decoder, src: Source) returns (l: Loaded)
    requires Compositional(decode)
    ensures LoadedFrom(decode, src, l)
    ensures forall k :: 0 <= k < |l.lines| ==> IsStripped(l.lines[k]) && '\n' !in l.lines[k]
  {
    var s := DecodeChunks(decode, src, 0, ReadSize, MaxWindow);
    var text := Flatten(s.chunks);
    assert decode(Gather(src, 0, s.last)) == Some(text);
    var lines := LoadLines(s.chunks);
    LinesOfText(s.chunks);
    l := Loaded(lines, s.last, s.failure);
  }
}
