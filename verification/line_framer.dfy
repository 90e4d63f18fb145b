/** The line framing of `load_data` in `src/data_loader.py`: each decoded chunk
    is appended to the carried-over fragment, the result is split at `"\n"`,
    every piece but the last is yielded stripped, and the last piece is carried
    into the next round. Iteration ends at the first empty chunk, and the
    fragment still carried then is dropped. */
module LineFramer {
  import opened Text
  import opened Seqs

  /** Pieces each followed by a newline: the text a sequence of terminated lines
      spells out. */
  function Lines(ps: seq<string>): string
  {
    if |ps| == 0 then "" else ps[0] + "\n" + Lines(ps[1..])
  }

  lemma {:induction false} LinesAppend(a: seq<string>, b: seq<string>)
    ensures Lines(a + b) == Lines(a) + Lines(b)
  {
    if |a| == 0 {
      assert a + b == b;
    } else {
      assert (a + b)[1..] == a[1..] + b;
      LinesAppend(a[1..], b);
    }
  }

  /** Joining with newlines is writing all pieces but the last as terminated lines. */
  lemma {:induction false} JoinAsLines(parts: seq<string>)
    requires |parts| >= 1
    ensures Join(parts, "\n") == Lines(parts[..|parts| - 1]) + parts[|parts| - 1]
  {
    if |parts| > 1 {
      var tail := parts[1..];
      JoinAsLines(tail);
      assert parts[..|parts| - 1] == [parts[0]] + tail[..|tail| - 1];
      assert ([parts[0]] + tail[..|tail| - 1])[1..] == tail[..|tail| - 1];
    }
  }

  /** The chunks the loop consumes: those before the first empty one. */
  function Consumed(chunks: seq<string>): (r: seq<string>)
    ensures |r| <= |chunks| && r == chunks[..|r|]
    ensures "" !in r
    ensures |r| < |chunks| ==> chunks[|r|] == ""
  {
    if |chunks| == 0 || chunks[0] == "" then []
    else
      var rest := Consumed(chunks[1..]);
      assert rest == chunks[1..][..|rest|];
      [chunks[0]] + rest
  }

  /** The raw pieces a run of the loop yields, before stripping, and the
      fragment it still carries when it stops. */
  datatype Framing = Framing(pieces: seq<string>, carry: string)

  /** The loop from the buffer `buffer` on: split `buffer + chunk` at newlines,
      keep all pieces but the last, carry the last. */
  function Frame(chunks: seq<string>, buffer: string): (f: Framing)
    requires '\n' !in buffer
    ensures forall k :: 0 <= k < |f.pieces| ==> '\n' !in f.pieces[k]
    ensures '\n' !in f.carry
    decreases |chunks|
  {
    if |chunks| == 0 || chunks[0] == "" then Framing([], buffer)
    else
      var parts := Split(buffer + chunks[0], '\n');
      var rest := Frame(chunks[1..], parts[|parts| - 1]);
      Framing(parts[..|parts| - 1] + rest.pieces, rest.carry)
  }

  /** Nothing is lost or invented: the yielded pieces, each with its newline,
      followed by the carried fragment, are the starting buffer and the consumed
      chunks concatenated. */
  lemma {:induction false} FrameReassembles(chunks: seq<string>, buffer: string)
    requires '\n' !in buffer
    ensures var f := Frame(chunks, buffer);
            Lines(f.pieces) + f.carry == buffer + Flatten(Consumed(chunks))
    decreases |chunks|
  {
    if |chunks| > 0 && chunks[0] != "" {
      var parts := Split(buffer + chunks[0], '\n');
      var head := parts[..|parts| - 1];
      var last := parts[|parts| - 1];
      var rest := Frame(chunks[1..], last);
      assert Frame(chunks, buffer) == Framing(head + rest.pieces, rest.carry);
      FrameReassembles(chunks[1..], last);
      SplitAsLines(buffer + chunks[0]);
      FlattenCons(chunks[0], Consumed(chunks[1..]));
      ReassembleStep(buffer, chunks[0], head, last, rest.pieces, rest.carry, Flatten(Consumed(chunks[1..])));
    }
  }

  /** Splitting at newlines and writing all pieces but the last as terminated
      lines gives the text back. */
  lemma SplitAsLines(s: string)
    ensures var parts := Split(s, '\n');
            Lines(parts[..|parts| - 1]) + parts[|parts| - 1] == s
  {
    var parts := Split(s, '\n');
    JoinAsLines(parts);
    assert Join(parts, ['\n']) == s;
  }

  lemma ReassembleStep(buffer: string, chunk: string, head: seq<string>, last: string,
                       pieces: seq<string>, carry: string, later: string)
    requires Lines(head) + last == buffer + chunk
    requires Lines(pieces) + carry == last + later
    ensures Lines(head + pieces) + carry == buffer + (chunk + later)
  {
    LinesAppend(head, pieces);
    calc {
      Lines(head + pieces) + carry;
      Lines(head) + (Lines(pieces) + carry);
      Lines(head) + (last + later);
      (Lines(head) + last) + later;
      buffer + (chunk + later);
    }
  }

  /** The streaming framer agrees with splitting the whole consumed text at
      once: its pieces are all pieces of `whole.split("\n")` but the last, and
      the last is the dropped fragment. */
  lemma FrameIsSplit(chunks: seq<string>, buffer: string)
    requires '\n' !in buffer
    ensures var f := Frame(chunks, buffer);
            var parts := Split(buffer + Flatten(Consumed(chunks)), '\n');
            f.pieces == parts[..|parts| - 1] && f.carry == parts[|parts| - 1]
  {
    var f := Frame(chunks, buffer);
    var all := f.pieces + [f.carry];
    FrameReassembles(chunks, buffer);
    assert all[..|all| - 1] == f.pieces;
    JoinAsLines(all);
    SplitJoin(all, '\n');
  }

  /** One yielded piece per newline in the consumed text: the fragment after the
      last newline is never yielded. */
  lemma FrameCount(chunks: seq<string>, buffer: string)
    requires '\n' !in buffer
    ensures |Frame(chunks, buffer).pieces| == Count(buffer + Flatten(Consumed(chunks)), '\n')
  {
    FrameIsSplit(chunks, buffer);
    SplitCount(buffer + Flatten(Consumed(chunks)), '\n');
  }

  /** The lines `load_data` yields for the decoded chunks, in order: every
      newline-terminated piece, stripped. */
  function LoadLines(chunks: seq<string>): (lines: seq<string>)
    ensures forall k :: 0 <= k < |lines| ==> IsStripped(lines[k]) && '\n' !in lines[k]
  {
    var pieces := Frame(chunks, "").pieces;
    var lines := seq(|pieces|, k requires 0 <= k < |pieces| => Strip(pieces[k]));
    assert forall k :: 0 <= k < |lines| ==> '\n' !in lines[k] by {
      forall k | 0 <= k < |lines|
        ensures '\n' !in lines[k]
      {
        StripKeepsAbsent(pieces[k], '\n');
      }
    }
    lines
  }

  /** The yielded lines are the stripped pieces of the consumed text split at
      newlines, all but the last; there is one per newline. */
  lemma LoadLinesAreSplit(chunks: seq<string>)
    ensures var text := Flatten(Consumed(chunks));
            var parts := Split(text, '\n');
            var lines := LoadLines(chunks);
            |lines| == |parts| - 1 == Count(text, '\n')
            && forall k :: 0 <= k < |lines| ==> lines[k] == Strip(parts[k])
  {
    var text := Flatten(Consumed(chunks));
    assert "" + text == text;
    FrameIsSplit(chunks, "");
    FrameCount(chunks, "");
    LinesFromPieces(Frame(chunks, "").pieces, Split(text, '\n'), LoadLines(chunks));
  }

  lemma LinesFromPieces(pieces: seq<string>, parts: seq<string>, lines: seq<string>)
    requires |parts| >= 1 && pieces == parts[..|parts| - 1]
    requires |lines| == |pieces| && forall k :: 0 <= k < |lines| ==> lines[k] == Strip(pieces[k])
    ensures |lines| == |parts| - 1 && forall k :: 0 <= k < |lines| ==> lines[k] == Strip(parts[k])
  {
  }

  /** For chunks none of which is empty, as the decoding loop delivers them,
      the lines are the stripped pieces of their whole text. */
  lemma LinesOfText(chunks: seq<string>)
    requires "" !in chunks
    ensures var parts := Split(Flatten(chunks), '\n');
            var lines := LoadLines(chunks);
            |lines| == |parts| - 1 && forall k :: 0 <= k < |lines| ==> lines[k] == Strip(parts[k])
  {
    ConsumedPrefix(chunks);
    LoadLinesAreSplit(chunks);
  }

  /** Iteration ends at the first empty chunk: what follows it is never read. */
  lemma LoadStopsAtEmpty(chunks: seq<string>, more: seq<string>)
    ensures LoadLines(chunks + [""] + more) == LoadLines(chunks[..|Consumed(chunks)|])
  {
    var c := Consumed(chunks);
    ConsumedStops(chunks, more);
    ConsumedPrefix(c);
    FrameIsSplit(chunks + [""] + more, "");
    FrameIsSplit(chunks[..|c|], "");
  }

  lemma {:induction false} ConsumedStops(chunks: seq<string>, more: seq<string>)
    ensures Consumed(chunks + [""] + more) == Consumed(chunks)
  {
    if |chunks| > 0 && chunks[0] != "" {
      assert (chunks + [""] + more)[1..] == chunks[1..] + [""] + more;
      ConsumedStops(chunks[1..], more);
    }
  }

  lemma {:induction false} ConsumedPrefix(c: seq<string>)
    requires "" !in c
    ensures Consumed(c) == c
  {
    if |c| > 0 {
      ConsumedPrefix(c[1..]);
      assert [c[0]] + c[1..] == c;
    }
  }
}
