/**
 * The model of Java's streams.  An `InputStream` is the sequence of chunks its
 * successive `read` calls deliver (a `read` that does not hit end of stream
 * delivers at least one byte); an `OutputStream` is the byte sequence written
 * to it, which only grows.
 */
module Streams {
  import opened Utf8

  type Chunk = c: seq<byte> | |c| > 0 witness [0]

  /** All the bytes a stream delivers before end of stream, in order. */
  function Flatten(chunks: seq<Chunk>): seq<byte>
  {
    if chunks == [] then [] else chunks[0] + Flatten(chunks[1..])
  }

  lemma {:induction false} FlattenAppend(a: seq<Chunk>, b: seq<Chunk>)
    ensures Flatten(a + b) == Flatten(a) + Flatten(b)
  {
    if a == [] {
      assert a + b == b;
    } else {
      assert (a + b)[0] == a[0];
      assert (a + b)[1..] == a[1..] + b;
      FlattenAppend(a[1..], b);
    }
  }

  lemma FlattenSingle(c: Chunk)
    ensures Flatten([c]) == c
  {
    assert [c][1..] == [];
  }
}
