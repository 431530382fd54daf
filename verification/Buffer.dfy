/**
  What a client's `write` and `seek` calls mean. `Perform` is what they do to the temp file;
  `Image` is the byte string the same calls describe when every accepted write is laid down
  directly at its position. The two are proved equal for every sequence of calls.
*/
module Buffer {
  import opened Posix

  /** One call on the handler; `accepted` is how much of `data` the kernel took, -1 for a failure. */
  datatype Op =
    | Write(data: Bytes, accepted: int)
    | Seek(offset: int, whence: Whence)

  predicate Succeeds(c: Cursor, op: Op) {
    match op
    case Write(data, n) => 0 <= n <= |data|
    case Seek(offset, whence) => ValidOffset(SeekTarget(|c.bytes|, c.pos, offset, whence))
  }

  /** The effect of one call on the temp file. */
  function Perform(c: Cursor, op: Op): Cursor {
    if !Succeeds(c, op) then c else
      match op
      case Write(data, n) => Cursor(WriteAt(c.bytes, c.pos, data[..n]), c.pos + n)
      case Seek(offset, whence) => c.(pos := SeekTarget(|c.bytes|, c.pos, offset, whence))
  }

  function PerformAll(c: Cursor, ops: seq<Op>): Cursor {
    if ops == [] then c else Perform(PerformAll(c, ops[..|ops| - 1]), ops[|ops| - 1])
  }

  /** The temp file after `ops` on a handler whose temp file started empty. */
  function Contents(ops: seq<Op>): Bytes {
    PerformAll(Cursor([], 0), ops).bytes
  }

  // ----- The reference: positional writes on a byte string -----

  datatype Placed = Placed(pos: nat, data: Bytes)

  predicate Covers(w: Placed, i: nat) {
    w.pos <= i < w.pos + |w.data|
  }

  /** One past the last byte that any of the writes covers. */
  function Extent(ws: seq<Placed>): nat {
    if ws == [] then 0 else
      var w := ws[|ws| - 1];
      var before := Extent(ws[..|ws| - 1]);
      if w.data != [] && before < w.pos + |w.data| then w.pos + |w.data| else before
  }

  /** The byte the latest covering write put at `i`; 0 where none did. */
  function ByteAt(ws: seq<Placed>, i: nat): Byte {
    if ws == [] then 0 else
      var w := ws[|ws| - 1];
      if Covers(w, i) then w.data[i - w.pos] else ByteAt(ws[..|ws| - 1], i)
  }

  /** The byte string the positional writes describe, from empty. */
  function Image(ws: seq<Placed>): (image: Bytes)
    ensures |image| == Extent(ws)
  {
    seq(Extent(ws), i requires 0 <= i => ByteAt(ws, i))
  }

  datatype Trace = Trace(writes: seq<Placed>, pos: nat)

  /** Where a call puts its bytes and leaves the position, without looking at any file. */
  function Place(t: Trace, op: Op): Trace {
    match op
    case Write(data, n) =>
      if 0 <= n <= |data| then Trace(t.writes + [Placed(t.pos, data[..n])], t.pos + n) else t
    case Seek(offset, whence) =>
      var target := SeekTarget(Extent(t.writes), t.pos, offset, whence);
      if ValidOffset(target) then t.(pos := target) else t
  }

  function PlaceAll(t: Trace, ops: seq<Op>): Trace {
    if ops == [] then t else Place(PlaceAll(t, ops[..|ops| - 1]), ops[|ops| - 1])
  }

  /** The byte string that `ops` describe when they start on nothing. */
  function Described(ops: seq<Op>): Bytes {
    Image(PlaceAll(Trace([], 0), ops).writes)
  }

  // ----- The reference says what it should -----

  ghost predicate LastCover(ws: seq<Placed>, k: nat, i: nat) {
    && k < |ws|
    && Covers(ws[k], i)
    && forall j :: k < j < |ws| ==> !Covers(ws[j], i)
  }

  /** Each byte comes from the last write covering it. */
  lemma {:induction false} ByteIsLastWrite(ws: seq<Placed>, k: nat, i: nat)
    requires LastCover(ws, k, i)
    ensures ByteAt(ws, i) == ws[k].data[i - ws[k].pos]
  {
    if k < |ws| - 1 {
      var front := ws[..|ws| - 1];
      assert !Covers(ws[|ws| - 1], i);
      assert forall j :: k < j < |front| ==> front[j] == ws[j];
      ByteIsLastWrite(front, k, i);
    }
  }

  /** A byte no write covers is zero. */
  lemma {:induction false} UncoveredByteIsZero(ws: seq<Placed>, i: nat)
    requires forall j :: 0 <= j < |ws| ==> !Covers(ws[j], i)
    ensures ByteAt(ws, i) == 0
  {
    if ws != [] {
      UncoveredByteIsZero(ws[..|ws| - 1], i);
    }
  }

  /** The described string ends with the furthest covered byte. */
  lemma {:induction false} ExtentIsFurthestByte(ws: seq<Placed>, i: nat)
    ensures i >= Extent(ws) ==> forall j :: 0 <= j < |ws| ==> !Covers(ws[j], i)
    ensures i + 1 == Extent(ws) ==> exists j :: 0 <= j < |ws| && Covers(ws[j], i)
  {
    if ws != [] {
      var front, last := ws[..|ws| - 1], ws[|ws| - 1];
      ExtentIsFurthestByte(front, i);
      if i >= Extent(ws) {
        forall j | 0 <= j < |ws| ensures !Covers(ws[j], i) {
          if j < |front| {
            assert !Covers(front[j], i);
          }
        }
      }
      if i + 1 == Extent(ws) {
        if Covers(last, i) {
          assert Covers(ws[|ws| - 1], i);
        } else {
          var j :| 0 <= j < |front| && Covers(front[j], i);
          assert Covers(ws[j], i);
        }
      }
    }
  }

  /** A seek counts from the start, the position or the furthest byte, and is ignored when no 63 bits hold the sum. */
  lemma SeekCountsFrom(t: Trace, offset: int, whence: Whence)
    ensures whence == SeekSet && 0 <= offset <= 0x7fff_ffff_ffff_ffff ==>
              Place(t, Seek(offset, whence)) == Trace(t.writes, offset)
    ensures whence == SeekCur && 0 <= t.pos + offset <= 0x7fff_ffff_ffff_ffff ==>
              Place(t, Seek(offset, whence)) == Trace(t.writes, t.pos + offset)
    ensures whence == SeekEnd && 0 <= Extent(t.writes) + offset <= 0x7fff_ffff_ffff_ffff ==>
              Place(t, Seek(offset, whence)) == Trace(t.writes, Extent(t.writes) + offset)
    ensures var base := if whence == SeekSet then 0 else if whence == SeekCur then t.pos else Extent(t.writes);
            !(0 <= base + offset <= 0x7fff_ffff_ffff_ffff) ==> Place(t, Seek(offset, whence)) == t
  {
  }

  lemma PlaceTwo(t: Trace, a: Op, b: Op)
    ensures PlaceAll(t, [a, b]) == Place(Place(t, a), b)
  {
    var one, two := [a], [a, b];
    assert one[..|one| - 1] == [] && PlaceAll(t, []) == t;
    assert PlaceAll(t, one) == Place(t, a);
    assert two[..|two| - 1] == one;
  }

  /** A seek and a write lay the bytes taken where the seek went, and the position follows them. */
  lemma WriteLandsAtSeek(t: Trace, offset: int, whence: Whence, data: Bytes, n: nat, target: nat)
    requires n <= |data| && target <= 0x7fff_ffff_ffff_ffff
    requires target == offset + if whence == SeekSet then 0 else if whence == SeekCur then t.pos else |Image(t.writes)|
    ensures PlaceAll(t, [Seek(offset, whence), Write(data, n)])
         == Trace(t.writes + [Placed(target, data[..n])], target + n)
  {
    assert Place(t, Seek(offset, whence)) == Trace(t.writes, target) by {
      SeekCountsFrom(t, offset, whence);
    }
    PlaceTwo(t, Seek(offset, whence), Write(data, n));
  }

  // ----- The temp file refines the reference -----

  /** One write on the file is one positional write more in the reference. */
  lemma WriteExtendsImage(ws: seq<Placed>, pos: nat, data: Bytes)
    ensures WriteAt(Image(ws), pos, data) == Image(ws + [Placed(pos, data)])
  {
    var w := Placed(pos, data);
    assert (ws + [w])[..|ws|] == ws;
    var file, image := WriteAt(Image(ws), pos, data), Image(ws + [w]);
    assert |file| == |image|;
    forall i | 0 <= i < |file| ensures file[i] == image[i] {
      assert image[i] == ByteAt(ws + [w], i);
      if i >= Extent(ws) {
        ExtentIsFurthestByte(ws, i);
        UncoveredByteIsZero(ws, i);
      }
    }
  }

  lemma {:induction false} TempFileRefinesPlacement(c: Cursor, t: Trace, ops: seq<Op>)
    requires c == Cursor(Image(t.writes), t.pos)
    ensures var c', t' := PerformAll(c, ops), PlaceAll(t, ops);
            c' == Cursor(Image(t'.writes), t'.pos)
  {
    if ops != [] {
      var front, op := ops[..|ops| - 1], ops[|ops| - 1];
      TempFileRefinesPlacement(c, t, front);
      var t0 := PlaceAll(t, front);
      if op.Write? && 0 <= op.accepted <= |op.data| {
        WriteExtendsImage(t0.writes, t0.pos, op.data[..op.accepted]);
      }
    }
  }

  /** Every sequence of calls leaves the temp file equal to the byte string the calls describe. */
  lemma ContentsAreDescribed(ops: seq<Op>)
    ensures Contents(ops) == Described(ops)
  {
    TempFileRefinesPlacement(Cursor([], 0), Trace([], 0), ops);
  }

  /**
    The temp file is opened without O_TRUNC, so bytes left in it by someone else take part in the upload. As long
    as no other handler writes to it meanwhile, what the client described is what is uploaded, whatever it does,
    exactly when nothing was left.
  */
  lemma FreshTempFileIsNeeded(leftover: Bytes)
    ensures (forall ops :: PerformAll(Cursor(leftover, 0), ops).bytes == Described(ops)) <==> leftover == []
  {
    if leftover == [] {
      forall ops ensures PerformAll(Cursor(leftover, 0), ops).bytes == Described(ops) {
        ContentsAreDescribed(ops);
      }
    } else {
      assert PerformAll(Cursor(leftover, 0), []).bytes != Described([]);
    }
  }

  /** With leftover bytes the upload is the client's writes laid over them. */
  lemma LeftoverIsOverwritten(leftover: Bytes, ops: seq<Op>)
    ensures PerformAll(Cursor(leftover, 0), ops).bytes
         == Image(PlaceAll(Trace([Placed(0, leftover)], 0), ops).writes)
  {
    var ws := [Placed(0, leftover)];
    assert ws[..|ws| - 1] == [];
    assert Image(ws) == leftover by {
      assert Extent(ws) == |leftover|;
      forall i | 0 <= i < |leftover| ensures Image(ws)[i] == leftover[i] {
        assert Covers(ws[0], i);
        assert ByteAt(ws, i) == leftover[i];
      }
    }
    TempFileRefinesPlacement(Cursor(leftover, 0), Trace(ws, 0), ops);
  }
}
