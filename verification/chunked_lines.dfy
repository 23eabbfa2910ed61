/**
  The read loop of `process_arctic_shift_file`: newline-delimited records
  are re-assembled from decompressed chunks of arbitrary size.  Each chunk is
  appended to a carry-over buffer, the buffer is split on `\n`, every piece
  but the last is a complete line, and the last piece becomes the new buffer;
  after the last chunk the buffer is handled as one more line.
 */
module ChunkedLines {

  newtype byte = x: int | 0 <= x < 256

  type Bytes = seq<byte>

  const Newline: byte := 10

  /** The pieces joined back with `\n` between them: `b'\n'.join(pieces)`. */
  function Join(pieces: seq<Bytes>): Bytes
    requires |pieces| >= 1
  {
    if |pieces| == 1 then pieces[0]
    else pieces[0] + [Newline] + Join(pieces[1..])
  }

  predicate NoNewlines(pieces: seq<Bytes>) {
    forall k :: 0 <= k < |pieces| ==> Newline !in pieces[k]
  }

  /** `s.split(b'\n')`: the newline-free pieces between the newlines; there
      is always one more piece than there are newlines. */
  function Split(s: Bytes): (pieces: seq<Bytes>)
    ensures |pieces| >= 1
    ensures NoNewlines(pieces)
    ensures Join(pieces) == s
  {
    if s == [] then [[]]
    else
      var rest := Split(s[1..]);
      assert s == [s[0]] + s[1..];
      if s[0] == Newline then
        assert Join([[]] + rest) == [Newline] + Join(rest) by {
          assert ([[]] + rest)[1..] == rest;
        }
        [[]] + rest
      else
        var first := [s[0]] + rest[0];
        var pieces := [first] + rest[1..];
        assert pieces[1..] == rest[1..];
        assert Newline !in first;
        assert Join(pieces) == [s[0]] + Join(rest) by {
          if |rest| > 1 {
            assert rest == [rest[0]] + rest[1..];
            assert Join(rest) == rest[0] + [Newline] + Join(rest[1..]);
          }
        }
        pieces
  }

  /** Two newline-free `x`, `y` followed by a newline can only match if they
      are the same. */
  lemma FirstLine(x: Bytes, y: Bytes, u: Bytes, v: Bytes)
    requires Newline !in x && Newline !in y
    requires x + [Newline] + u == y + [Newline] + v
    ensures x == y && u == v
  {
    var s := x + [Newline] + u;
    assert forall k :: 0 <= k < |x| ==> s[k] == x[k] && s[k] != Newline;
    assert forall k :: 0 <= k < |y| ==> s[k] == y[k] && s[k] != Newline;
    assert s[|x|] == Newline && s[|y|] == Newline;
    assert |x| == |y|;
    assert x == s[..|x|] == y;
    assert u == s[|x| + 1..] == v;
  }

  /** Splitting is the only way to cut a byte string into newline-free
      pieces: `Join` is injective on them. */
  lemma {:induction false} JoinInjective(p: seq<Bytes>, q: seq<Bytes>)
    requires |p| >= 1 && |q| >= 1
    requires NoNewlines(p) && NoNewlines(q)
    requires Join(p) == Join(q)
    ensures p == q
    decreases |p|
  {
    if |p| == 1 && |q| > 1 {
      assert false;
    } else if |p| > 1 && |q| == 1 {
      assert false;
    } else if |p| > 1 {
      FirstLine(p[0], q[0], Join(p[1..]), Join(q[1..]));
      JoinInjective(p[1..], q[1..]);
      assert p == [p[0]] + p[1..];
      assert q == [q[0]] + q[1..];
    }
  }

  /** `Split` inverts `Join` on newline-free pieces. */
  lemma SplitJoin(pieces: seq<Bytes>)
    requires |pieces| >= 1 && NoNewlines(pieces)
    ensures Split(Join(pieces)) == pieces
  {
    JoinInjective(Split(Join(pieces)), pieces);
  }

  /** The lines, each followed by its newline. */
  function Terminated(lines: seq<Bytes>): Bytes {
    if lines == [] then []
    else lines[0] + [Newline] + Terminated(lines[1..])
  }

  lemma {:induction false} TerminatedAppend(a: seq<Bytes>, b: seq<Bytes>)
    ensures Terminated(a + b) == Terminated(a) + Terminated(b)
    decreases |a|
  {
    if a != [] {
      assert (a + b)[1..] == a[1..] + b;
      TerminatedAppend(a[1..], b);
    } else {
      assert a + b == b;
    }
  }

  /** Joining is terminating all but the last piece. */
  lemma {:induction false} JoinIsTerminated(pieces: seq<Bytes>)
    requires |pieces| >= 1
    ensures Join(pieces) == Terminated(pieces[..|pieces| - 1]) + pieces[|pieces| - 1]
    decreases |pieces|
  {
    if |pieces| > 1 {
      JoinIsTerminated(pieces[1..]);
      var init := pieces[..|pieces| - 1];
      assert init[1..] == pieces[1..][..|pieces[1..]| - 1];
      assert init != [] && init[0] == pieces[0];
    } else {
      assert pieces[..0] == [];
    }
  }

  /** All chunks concatenated. */
  function Flatten(chunks: seq<Bytes>): Bytes {
    if chunks == [] then [] else chunks[0] + Flatten(chunks[1..])
  }

  /** The chunks the loop reads: `reader.read` returning `b''` ends it. */
  function ReadPrefix(chunks: seq<Bytes>): seq<Bytes> {
    if chunks == [] || chunks[0] == [] then [] else [chunks[0]] + ReadPrefix(chunks[1..])
  }

  /** A non-empty first chunk is read, and reading goes on after it. */
  lemma ReadPrefixStep(chunks: seq<Bytes>)
    requires chunks != [] && chunks[0] != []
    ensures Flatten(ReadPrefix(chunks)) == chunks[0] + Flatten(ReadPrefix(chunks[1..]))
  {
    var rest := ReadPrefix(chunks[1..]);
    assert ReadPrefix(chunks) == [chunks[0]] + rest;
    assert ([chunks[0]] + rest)[1..] == rest;
  }

  lemma NoNewlinesAppend(p: seq<Bytes>, q: seq<Bytes>)
    requires NoNewlines(p) && NoNewlines(q)
    ensures NoNewlines(p + q)
  {
    forall k | 0 <= k < |p + q| ensures Newline !in (p + q)[k] {
      if k < |p| {
        assert (p + q)[k] == p[k];
      } else {
        assert (p + q)[k] == q[k - |p|];
      }
    }
  }

  /** The `while True` loop from a given carry-over buffer: the complete
      lines in the order they are processed, and the final buffer.  Its
      invariant: the lines, each with its newline, followed by the buffer,
      are exactly the bytes read so far, and the buffer holds no newline. */
  function ReadLoop(chunks: seq<Bytes>, buffer: Bytes): (r: (seq<Bytes>, Bytes))
    requires Newline !in buffer
    ensures Terminated(r.0) + r.1 == buffer + Flatten(ReadPrefix(chunks))
    ensures NoNewlines(r.0) && Newline !in r.1
  {
    if chunks == [] || chunks[0] == [] then ([], buffer)
    else
      var pieces := Split(buffer + chunks[0]);
      var complete := pieces[..|pieces| - 1];
      var rest := ReadLoop(chunks[1..], pieces[|pieces| - 1]);
      JoinIsTerminated(pieces);
      TerminatedAppend(complete, rest.0);
      ReadPrefixStep(chunks);
      assert NoNewlines(complete);
      NoNewlinesAppend(complete, rest.0);
      var last := pieces[|pieces| - 1];
      var tail := Flatten(ReadPrefix(chunks[1..]));
      calc {
        Terminated(complete + rest.0) + rest.1;
        Terminated(complete) + (Terminated(rest.0) + rest.1);
        Terminated(complete) + (last + tail);
        (Terminated(complete) + last) + tail;
        (buffer + chunks[0]) + tail;
        buffer + Flatten(ReadPrefix(chunks));
      }
      (complete + rest.0, rest.1)
  }

  /** Every line the parser is handed: the complete lines, then the final
      buffer. */
  function Lines(chunks: seq<Bytes>): (r: seq<Bytes>)
    ensures r != [] && NoNewlines(r)
  {
    var (complete, buffer) := ReadLoop(chunks, []);
    complete + [buffer]
  }

  /** The lines handed to the parser are exactly the `\n`-separated pieces of
      all the bytes read: each newline-terminated line exactly once, in
      order, followed by the unterminated tail. */
  lemma LinesAreSplit(chunks: seq<Bytes>)
    ensures Lines(chunks) == Split(Flatten(ReadPrefix(chunks)))
  {
    var r := ReadLoop(chunks, []);
    var complete, buffer := r.0, r.1;
    var all := complete + [buffer];
    assert Lines(chunks) == all;
    assert all[..|all| - 1] == complete;
    JoinIsTerminated(all);
    assert Join(all) == Flatten(ReadPrefix(chunks)) by {
      assert Terminated(complete) + buffer == [] + Flatten(ReadPrefix(chunks));
    }
    assert NoNewlines(all) by {
      forall k | 0 <= k < |all| ensures Newline !in all[k] {
        if k < |complete| {
          assert all[k] == complete[k];
        }
      }
    }
    SplitJoin(all);
  }

  /** How the input is cut into chunks does not matter: two ways of reading
      the same bytes hand the parser the same lines. */
  lemma LinesIgnoreChunking(c1: seq<Bytes>, c2: seq<Bytes>)
    requires Flatten(ReadPrefix(c1)) == Flatten(ReadPrefix(c2))
    ensures Lines(c1) == Lines(c2)
  {
    LinesAreSplit(c1);
    LinesAreSplit(c2);
  }
}
