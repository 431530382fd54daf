/** Draining a file with `while (!eof()) read(...)`, given how `read` sets the end-of-file flag. */
module Readers {
  import opened Posix

  /** The plugin's idea of the HDFS buffer size. */
  const BUFF_SIZE := 65536

  datatype Reader = Reader(bytes: Bytes, pos: nat, eof: bool)

  predicate CanRead(r: Reader, n: nat) {
    r.pos + n <= |r.bytes|
  }

  /** A `read` that returned `n`. */
  function AfterRead(r: Reader, n: nat): Reader {
    Reader(r.bytes, r.pos + n, r.eof || n < BUFF_SIZE)
  }

  /** `sizes` are the results of the loop so far: each was made while the flag was down. */
  predicate Drains(r: Reader, sizes: seq<nat>)
    decreases sizes
  {
    sizes == [] || (!r.eof && CanRead(r, sizes[0]) && Drains(AfterRead(r, sizes[0]), sizes[1..]))
  }

  function Drained(r: Reader, sizes: seq<nat>): Reader
    decreases sizes
  {
    if sizes == [] then r else Drained(AfterRead(r, sizes[0]), sizes[1..])
  }

  /** The bytes the loop has handed out. */
  function Collected(r: Reader, sizes: seq<nat>): Bytes
    requires Drains(r, sizes)
    decreases sizes
  {
    if sizes == [] then [] else
      r.bytes[r.pos..r.pos + sizes[0]] + Collected(AfterRead(r, sizes[0]), sizes[1..])
  }

  /** `read(count)` comes back short only at the end of the file. */
  predicate ShortOnlyAtEnd(r: Reader, sizes: seq<nat>, count: nat)
    decreases sizes
  {
    sizes == [] ||
    (&& sizes[0] == (if |r.bytes| - r.pos < count then |r.bytes| - r.pos else count)
     && ShortOnlyAtEnd(AfterRead(r, sizes[0]), sizes[1..], count))
  }

  lemma {:induction false} ReadsAreLarge(r: Reader, sizes: seq<nat>)
    requires Drains(r, sizes) && sizes != []
    ensures r.pos + BUFF_SIZE * (|sizes| - 1) <= |r.bytes|
    decreases sizes
  {
    if |sizes| > 1 {
      assert Drains(AfterRead(r, sizes[0]), sizes[1..]) && sizes[1..] != [];
      ReadsAreLarge(AfterRead(r, sizes[0]), sizes[1..]);
    }
  }

  /** The loop ends: whatever sizes the reads return, there are at most size / 65536 + 1 of them. */
  lemma DrainingEnds(r: Reader, sizes: seq<nat>)
    requires r.pos == 0 && Drains(r, sizes)
    ensures |sizes| <= |r.bytes| / 65536 + 1
  {
    if sizes != [] {
      ReadsAreLarge(r, sizes);
    }
  }

  lemma {:induction false} CollectedIsASlice(r: Reader, sizes: seq<nat>)
    requires Drains(r, sizes) && r.pos <= |r.bytes|
    ensures r.pos <= Drained(r, sizes).pos <= |r.bytes|
    ensures Collected(r, sizes) == r.bytes[r.pos..Drained(r, sizes).pos]
    decreases sizes
  {
    if sizes != [] {
      CollectedIsASlice(AfterRead(r, sizes[0]), sizes[1..]);
    }
  }

  lemma {:induction false} LargeReadsReachTheEnd(r: Reader, sizes: seq<nat>, count: nat)
    requires !r.eof && r.pos <= |r.bytes| && Drains(r, sizes) && ShortOnlyAtEnd(r, sizes, count)
    requires Drained(r, sizes).eof && count >= BUFF_SIZE
    ensures Drained(r, sizes).pos == |r.bytes|
    decreases sizes
  {
    var next := AfterRead(r, sizes[0]);
    if next.eof {
      assert sizes[1..] == [];
    } else {
      LargeReadsReachTheEnd(next, sizes[1..], count);
    }
  }

  /**
    When reads are short only at the end of the file, the finished loop has handed out the whole file
    exactly when the client reads in units of at least the buffer size, or the file fits one read.
  */
  lemma DrainingIsComplete(bytes: Bytes, sizes: seq<nat>, count: nat)
    requires var r := Reader(bytes, 0, false);
             Drains(r, sizes) && ShortOnlyAtEnd(r, sizes, count) && Drained(r, sizes).eof
    ensures Collected(Reader(bytes, 0, false), sizes) == bytes <==> count >= 65536 || |bytes| <= count
  {
    var r := Reader(bytes, 0, false);
    CollectedIsASlice(r, sizes);
    var end := Drained(r, sizes).pos;
    assert end == |bytes| ==> bytes[0..end] == bytes;
    if count >= BUFF_SIZE {
      LargeReadsReachTheEnd(r, sizes, count);
    } else {
      assert sizes[1..] == [];
      assert end == sizes[0];
    }
  }
}
