/**
 * Edits over the original source and the offset bookkeeping built on them
 * (crates/core/src/edit.rs): validation of an edit list, line indexing, the output span of
 * every edit, and the output-byte to input-byte origin map that source maps are built from.
 */
module Edit {
  import opened Basics

  /**
   * A replacement of input bytes [start, end). `outputByteToInputByte[j]` is the input byte that
   * output byte j of the replacement came from (None: inserted, unmapped). A non-zero
   * `movedDelimLen` says the replacement ends with a delimiter moved from inside the span.
   */
  datatype Edit = Edit(
    start: nat,
    end: nat,
    replacement: seq<byte>,
    outputByteToInputByte: seq<Option<nat>>,
    movedDelimLen: nat)

  /** Which structural check of `ValidateEdits` an edit failed. */
  datatype InvalidReason =
    | StartAfterEnd
    | EndOutOfBounds
    | OriginLengthMismatch
    | MovedDelimTooLong
    | OriginOutOfBounds(outOff: nat)

  /** The errors of the stripping engine (crates/core/src/lib.rs). */
  datatype StripError =
    | ParseFailed
    | InvalidEdit(index: nat, reason: InvalidReason)
    | OverlappingEdits(aStart: nat, aEnd: nat, bStart: nat, bEnd: nat)

  // ---------------------------------------------------------------------------------------
  // Splicing: the meaning of an ordered edit list, for any element type.
  // ---------------------------------------------------------------------------------------

  /** One replaced range of the input and the elements that take its place. */
  datatype Piece<T> = Piece(start: nat, end: nat, content: seq<T>)

  /** Pieces that are individually well-formed and appear in order without overlapping. */
  ghost predicate PiecesOrdered<T>(ps: seq<Piece<T>>) {
    && (forall i :: 0 <= i < |ps| ==> ps[i].start <= ps[i].end)
    && (forall i :: 0 < i < |ps| ==> Follows(ps, i))
  }

  /** Piece i starts no earlier than piece i - 1 ends. */
  ghost predicate Follows<T>(ps: seq<Piece<T>>, i: nat)
    requires 0 < i < |ps|
  {
    ps[i - 1].end <= ps[i].start
  }

  ghost predicate PiecesValid<T>(n: nat, ps: seq<Piece<T>>) {
    PiecesOrdered(ps) && forall i :: 0 <= i < |ps| ==> ps[i].end <= n
  }

  /** The input position just after the last piece. */
  function Cursor<T>(ps: seq<Piece<T>>): nat {
    if ps == [] then 0 else ps[|ps| - 1].end
  }

  /** Net change in length caused by the pieces. */
  function Delta<T>(ps: seq<Piece<T>>): int {
    if ps == [] then 0
    else
      var last := ps[|ps| - 1];
      Delta(ps[..|ps| - 1]) + |last.content| - (last.end - last.start)
  }

  /**
   * Everything the splice emits up to the end of the last piece: as long as the input it has
   * consumed plus the growth of the pieces.
   */
  function Emitted<T>(src: seq<T>, ps: seq<Piece<T>>): (r: seq<T>)
    requires PiecesValid(|src|, ps)
    ensures |r| == Cursor(ps) + Delta(ps)
  {
    if ps == [] then []
    else
      var init := ps[..|ps| - 1];
      var last := ps[|ps| - 1];
      PrefixValid(|src|, ps, |ps| - 1);
      CursorBeforeNext(ps, |ps| - 1);
      Emitted(src, init) + src[Cursor(init)..last.start] + last.content
  }

  /**
   * Each unedited span, then each piece's content, in order, then the unedited tail: as long as
   * the input plus the growth of the pieces.
   */
  function Apply<T>(src: seq<T>, ps: seq<Piece<T>>): (r: seq<T>)
    requires PiecesValid(|src|, ps)
    ensures |r| == |src| + Delta(ps)
  {
    CursorBound(|src|, ps);
    Emitted(src, ps) + src[Cursor(ps)..]
  }

  lemma {:induction false} PrefixValid<T>(n: nat, ps: seq<Piece<T>>, i: nat)
    requires PiecesValid(n, ps) && i <= |ps|
    ensures PiecesValid(n, ps[..i])
  {
    forall k | 0 < k < i ensures Follows(ps[..i], k) {
      assert Follows(ps, k);
    }
  }

  lemma {:induction false} CursorBound<T>(n: nat, ps: seq<Piece<T>>)
    requires PiecesValid(n, ps)
    ensures Cursor(ps) <= n
  {
  }

  /** What is emitted for a prefix of the pieces is a prefix of what is emitted for all. */
  lemma {:induction false} EmittedPrefix<T>(src: seq<T>, ps: seq<Piece<T>>, i: nat)
    requires PiecesValid(|src|, ps) && i <= |ps|
    ensures PiecesValid(|src|, ps[..i])
    ensures Emitted(src, ps[..i]) <= Emitted(src, ps)
    decreases |ps| - i
  {
    if i < |ps| {
      var init := ps[..|ps| - 1];
      PrefixValid(|src|, ps, |ps| - 1);
      assert init[..i] == ps[..i];
      EmittedPrefix(src, init, i);
    } else {
      assert ps[..i] == ps;
    }
  }

  /** Unfolding of Emitted on the prefix ps[..i+1]. */
  lemma EmittedStep<T>(src: seq<T>, ps: seq<Piece<T>>, i: nat)
    requires PiecesValid(|src|, ps) && i < |ps|
    ensures PiecesValid(|src|, ps[..i]) && PiecesValid(|src|, ps[..i + 1])
    ensures Cursor(ps[..i]) <= ps[i].start
    ensures Emitted(src, ps[..i + 1])
         == Emitted(src, ps[..i]) + src[Cursor(ps[..i])..ps[i].start] + ps[i].content
    ensures Cursor(ps[..i + 1]) == ps[i].end
    ensures Delta(ps[..i + 1]) == Delta(ps[..i]) + |ps[i].content| - (ps[i].end - ps[i].start)
  {
    PrefixValid(|src|, ps, i);
    PrefixValid(|src|, ps, i + 1);
    PiecePrefixStep(ps, i);
    CursorBeforeNext(ps, i);
  }

  lemma PiecePrefixStep<T>(ps: seq<Piece<T>>, i: nat)
    requires i < |ps|
    ensures |ps[..i + 1]| == i + 1 && ps[..i + 1][..i] == ps[..i] && ps[..i + 1][i] == ps[i]
  {
  }

  lemma CursorBeforeNext<T>(ps: seq<Piece<T>>, i: nat)
    requires PiecesOrdered(ps) && i < |ps|
    ensures Cursor(ps[..i]) <= ps[i].start
  {
    if i > 0 {
      assert ps[..i][i - 1] == ps[i - 1];
      assert Follows(ps, i);
    }
  }

  lemma EmittedStepDelta<T>(ps: seq<Piece<T>>, i: nat)
    requires i < |ps|
    ensures Delta(ps[..i + 1]) == Delta(ps[..i]) + |ps[i].content| - (ps[i].end - ps[i].start)
  {
    assert ps[..i + 1][..i] == ps[..i];
  }

  /** Piece i's content lands at output offset start_i + (delta of the pieces before it). */
  lemma {:induction false} ContentAt<T>(src: seq<T>, ps: seq<Piece<T>>, i: nat, j: nat)
    requires PiecesValid(|src|, ps) && i < |ps| && j < |ps[i].content|
    ensures 0 <= ps[i].start + Delta(ps[..i]) + j < |Apply(src, ps)|
    ensures Apply(src, ps)[ps[i].start + Delta(ps[..i]) + j] == ps[i].content[j]
  {
    EmittedStep(src, ps, i);
    EmittedPrefix(src, ps, i + 1);
    var a, b, c := Emitted(src, ps[..i]), src[Cursor(ps[..i])..ps[i].start], ps[i].content;
    var pos := ps[i].start + Delta(ps[..i]) + j;
    assert pos == |a| + |b| + j;
    ConcatAt(a, b, c, |b| + j);
    PrefixAt(Emitted(src, ps[..i + 1]), Emitted(src, ps), pos);
    PrefixAt(Emitted(src, ps), Apply(src, ps), pos);
  }

  /**
   * An unedited input element b, lying after the first i pieces and before the next one,
   * appears at output offset b + (delta of those i pieces).
   */
  lemma {:induction false} CopiedAt<T>(src: seq<T>, ps: seq<Piece<T>>, i: nat, b: nat)
    requires PiecesValid(|src|, ps) && i <= |ps|
    requires PiecesValid(|src|, ps[..i])
    requires Cursor(ps[..i]) <= b
    requires if i < |ps| then b < ps[i].start else b < |src|
    ensures 0 <= b + Delta(ps[..i]) < |Apply(src, ps)|
    ensures Apply(src, ps)[b + Delta(ps[..i])] == src[b]
  {
    if i < |ps| {
      CopiedBefore(src, ps, i, b);
    } else {
      assert ps[..i] == ps;
      CopiedTail(src, ps, b);
    }
  }

  lemma CopiedBefore<T>(src: seq<T>, ps: seq<Piece<T>>, i: nat, b: nat)
    requires PiecesValid(|src|, ps) && i < |ps|
    requires PiecesValid(|src|, ps[..i])
    requires Cursor(ps[..i]) <= b < ps[i].start
    ensures 0 <= b + Delta(ps[..i]) < |Apply(src, ps)|
    ensures Apply(src, ps)[b + Delta(ps[..i])] == src[b]
  {
    CopiedInStep(src, ps, i, b);
    EmittedPrefix(src, ps, i + 1);
    var pos := b + Delta(ps[..i]);
    PrefixAt(Emitted(src, ps[..i + 1]), Emitted(src, ps), pos);
    PrefixAt(Emitted(src, ps), Apply(src, ps), pos);
  }

  lemma CopiedInStep<T>(src: seq<T>, ps: seq<Piece<T>>, i: nat, b: nat)
    requires PiecesValid(|src|, ps) && i < |ps|
    requires PiecesValid(|src|, ps[..i])
    requires Cursor(ps[..i]) <= b < ps[i].start
    ensures PiecesValid(|src|, ps[..i + 1])
    ensures 0 <= b + Delta(ps[..i]) < |Emitted(src, ps[..i + 1])|
    ensures Emitted(src, ps[..i + 1])[b + Delta(ps[..i])] == src[b]
  {
    EmittedStep(src, ps, i);
    var e, run := Emitted(src, ps[..i]), src[Cursor(ps[..i])..ps[i].start];
    ConcatAt(e, run, ps[i].content, b - Cursor(ps[..i]));
  }

  lemma CopiedTail<T>(src: seq<T>, ps: seq<Piece<T>>, b: nat)
    requires PiecesValid(|src|, ps)
    requires Cursor(ps) <= b < |src|
    ensures 0 <= b + Delta(ps) < |Apply(src, ps)|
    ensures Apply(src, ps)[b + Delta(ps)] == src[b]
  {
    var run := src[Cursor(ps)..];
    assert Emitted(src, ps) + run + [] == Apply(src, ps);
    ConcatAt(Emitted(src, ps), run, [], b - Cursor(ps));
  }

  /** Element k of b, seen through a + b + c (or element k - |b| of c). */
  lemma ConcatAt<T>(a: seq<T>, b: seq<T>, c: seq<T>, k: nat)
    requires k < |b| + |c|
    ensures (a + b + c)[|a| + k] == if k < |b| then b[k] else c[k - |b|]
  {
  }

  lemma PrefixAt<T>(a: seq<T>, b: seq<T>, k: nat)
    requires a <= b && k < |a|
    ensures b[k] == a[k]
  {
  }

  /** The shifted range of piece i lies inside the output. */
  lemma {:induction false} PieceWithin<T>(src: seq<T>, ps: seq<Piece<T>>, i: nat)
    requires PiecesValid(|src|, ps) && i < |ps|
    ensures 0 <= ps[i].start + Delta(ps[..i])
    ensures ps[i].start + Delta(ps[..i]) + |ps[i].content| <= |Apply(src, ps)|
  {
    EmittedStep(src, ps, i);
    EmittedPrefix(src, ps, i + 1);
  }

  /** End of the unedited run that follows the first i pieces. */
  function RunEnd<T>(n: nat, ps: seq<Piece<T>>, i: nat): nat
    requires i <= |ps|
  {
    if i < |ps| then ps[i].start else n
  }

  /** The whole unedited run after the first i pieces, shifted by their delta, as one range. */
  lemma {:induction false} CopiedRun<T>(src: seq<T>, ps: seq<Piece<T>>, i: nat)
    requires PiecesValid(|src|, ps) && i <= |ps|
    ensures PiecesValid(|src|, ps[..i])
    ensures 0 <= Cursor(ps[..i]) + Delta(ps[..i])
    ensures Cursor(ps[..i]) <= RunEnd(|src|, ps, i) <= |src|
    ensures RunEnd(|src|, ps, i) + Delta(ps[..i]) <= |Apply(src, ps)|
    ensures forall q :: Cursor(ps[..i]) + Delta(ps[..i]) <= q < RunEnd(|src|, ps, i) + Delta(ps[..i]) ==>
              Apply(src, ps)[q] == src[q - Delta(ps[..i])]
  {
    PrefixValid(|src|, ps, i);
    ShiftedCursorNonNegative(ps, i);
    CursorBound(|src|, ps[..i]);
    if i < |ps| {
      EmittedStep(src, ps, i);
      PieceWithin(src, ps, i);
    } else {
      assert ps[..i] == ps;
    }
    forall q | Cursor(ps[..i]) + Delta(ps[..i]) <= q < RunEnd(|src|, ps, i) + Delta(ps[..i])
      ensures Apply(src, ps)[q] == src[q - Delta(ps[..i])]
    {
      CopiedAt(src, ps, i, q - Delta(ps[..i]));
    }
  }

  /** Piece i's content, shifted by the delta of the pieces before it, as one range. */
  lemma {:induction false} ContentRun<T>(src: seq<T>, ps: seq<Piece<T>>, i: nat)
    requires PiecesValid(|src|, ps) && i < |ps|
    ensures 0 <= ps[i].start + Delta(ps[..i])
    ensures ps[i].start + Delta(ps[..i]) + |ps[i].content| <= |Apply(src, ps)|
    ensures forall q :: ps[i].start + Delta(ps[..i]) <= q < ps[i].start + Delta(ps[..i]) + |ps[i].content| ==>
              Apply(src, ps)[q] == ps[i].content[q - (ps[i].start + Delta(ps[..i]))]
  {
    PieceWithin(src, ps, i);
    forall q | ps[i].start + Delta(ps[..i]) <= q < ps[i].start + Delta(ps[..i]) + |ps[i].content|
      ensures Apply(src, ps)[q] == ps[i].content[q - (ps[i].start + Delta(ps[..i]))]
    {
      ContentAt(src, ps, i, q - (ps[i].start + Delta(ps[..i])));
    }
  }

  /** A piece list that changes nothing leaves the input as it is. */
  lemma ApplyNoPieces<T>(src: seq<T>)
    ensures PiecesValid<T>(|src|, []) && Apply<T>(src, []) == src
  {
  }

  /** The start of each piece shifted by the deltas before it is never negative. */
  lemma {:induction false} ShiftedCursorNonNegative<T>(ps: seq<Piece<T>>, i: nat)
    requires PiecesOrdered(ps) && i <= |ps|
    ensures Cursor(ps[..i]) + Delta(ps[..i]) >= 0
    ensures i < |ps| ==> ps[i].start + Delta(ps[..i]) >= Cursor(ps[..i]) + Delta(ps[..i])
    decreases i
  {
    if i > 0 {
      ShiftedCursorNonNegative(ps, i - 1);
      assert ps[..i][..i - 1] == ps[..i - 1];
    }
    if i < |ps| {
      CursorBeforeNext(ps, i);
    }
  }

  // ---------------------------------------------------------------------------------------
  // Edits as pieces.
  // ---------------------------------------------------------------------------------------

  /** The byte splice described by the edits. */
  function BytePieces(edits: seq<Edit>): seq<Piece<byte>> {
    seq(|edits|, i requires 0 <= i < |edits| => Piece(edits[i].start, edits[i].end, edits[i].replacement))
  }

  /** The origin splice described by the edits. */
  function OriginPieces(edits: seq<Edit>): seq<Piece<Option<nat>>> {
    seq(|edits|, i requires 0 <= i < |edits|
      => Piece(edits[i].start, edits[i].end, edits[i].outputByteToInputByte))
  }

  /** Output length change of the first i edits: the shift of every later input byte. */
  function Shift(edits: seq<Edit>, i: nat): int
    requires i <= |edits|
  {
    Delta(BytePieces(edits[..i]))
  }

  /** Identity origins: input byte b comes from input byte b. */
  function Identity(n: nat): (r: seq<Option<nat>>)
    ensures |r| == n && forall b :: 0 <= b < n ==> r[b] == Some(b)
  {
    seq(n, b requires 0 <= b < n => Some(b))
  }

  // ---------------------------------------------------------------------------------------
  // validate_edits
  // ---------------------------------------------------------------------------------------

  ghost predicate OriginsInBounds(inputLen: nat, origins: seq<Option<nat>>) {
    forall j :: 0 <= j < |origins| && origins[j].Some? ==> origins[j].value < inputLen
  }

  /** The per-edit checks of validate_edits. */
  ghost predicate WellFormed(inputLen: nat, e: Edit) {
    && e.start <= e.end <= inputLen
    && |e.outputByteToInputByte| == |e.replacement|
    && e.movedDelimLen <= |e.replacement|
    && OriginsInBounds(inputLen, e.outputByteToInputByte)
  }

  /** Edit k is well-formed and starts no earlier than the previous edit ends. */
  ghost predicate OkAt(inputLen: nat, edits: seq<Edit>, k: nat)
    requires k < |edits|
  {
    WellFormed(inputLen, edits[k]) && (k > 0 ==> edits[k - 1].end <= edits[k].start)
  }

  /** The edit list validate_edits accepts. */
  ghost predicate EditsValid(inputLen: nat, edits: seq<Edit>) {
    forall k :: 0 <= k < |edits| ==> OkAt(inputLen, edits, k)
  }

  /** Index of the first origin that is out of bounds, or |origins| if there is none. */
  function FirstOutOfBounds(inputLen: nat, origins: seq<Option<nat>>): (r: nat)
    ensures r <= |origins|
    ensures forall j :: 0 <= j < r && origins[j].Some? ==> origins[j].value < inputLen
    ensures r < |origins| ==> origins[r].Some? && origins[r].value >= inputLen
  {
    if origins == [] then 0
    else if origins[0].Some? && origins[0].value >= inputLen then 0
    else 1 + FirstOutOfBounds(inputLen, origins[1..])
  }

  /**
   * The error validate_edits reports for a failing edit i: its checks, in the source's order.
   * Whatever it reports holds of edit i; an overlap names the previous edit and edit i.
   */
  function Violation(inputLen: nat, edits: seq<Edit>, i: nat): (r: StripError)
    requires i < |edits|
    ensures r != ParseFailed
    ensures r.InvalidEdit? ==> r.index == i
    ensures r == InvalidEdit(i, StartAfterEnd) ==> edits[i].start > edits[i].end
    ensures r == InvalidEdit(i, EndOutOfBounds) ==> edits[i].end > inputLen
    ensures r.OverlappingEdits? ==>
      && i > 0
      && r == OverlappingEdits(edits[i - 1].start, edits[i - 1].end, edits[i].start, edits[i].end)
      && r.bStart < r.aEnd && r.bStart <= r.bEnd <= inputLen
    ensures r == InvalidEdit(i, OriginLengthMismatch) ==>
      |edits[i].outputByteToInputByte| != |edits[i].replacement|
    ensures r == InvalidEdit(i, MovedDelimTooLong) ==> edits[i].movedDelimLen > |edits[i].replacement|
    ensures !OkAt(inputLen, edits, i) && r.InvalidEdit? && r.reason.OriginOutOfBounds? ==>
      var origins := edits[i].outputByteToInputByte;
      r.reason.outOff < |origins| && origins[r.reason.outOff].Some?
      && origins[r.reason.outOff].value >= inputLen
  {
    var e := edits[i];
    if e.start > e.end then InvalidEdit(i, StartAfterEnd)
    else if e.end > inputLen then InvalidEdit(i, EndOutOfBounds)
    else if i > 0 && e.start < edits[i - 1].end then
      OverlappingEdits(edits[i - 1].start, edits[i - 1].end, e.start, e.end)
    else if |e.outputByteToInputByte| != |e.replacement| then InvalidEdit(i, OriginLengthMismatch)
    else if e.movedDelimLen > |e.replacement| then InvalidEdit(i, MovedDelimTooLong)
    else InvalidEdit(i, OriginOutOfBounds(FirstOutOfBounds(inputLen, e.outputByteToInputByte)))
  }

  /**
   * Accepts exactly the valid edit lists; otherwise reports, for the first failing edit, the
   * first check it fails. An edit starting before the previous one's end (and passing the
   * bounds checks) is reported as overlapping.
   */
  method ValidateEdits(inputLen: nat, edits: seq<Edit>) returns (r: Result<(), StripError>)
    ensures r.Ok? <==> EditsValid(inputLen, edits)
    ensures r.Err? ==>
      exists i :: 0 <= i < |edits|
        && (forall k :: 0 <= k < i ==> OkAt(inputLen, edits, k))
        && !OkAt(inputLen, edits, i)
        && r.error == Violation(inputLen, edits, i)
  {
    var prevEnd: nat := 0;
    var idx := 0;
    while idx < |edits|
      invariant 0 <= idx <= |edits|
      invariant forall k :: 0 <= k < idx ==> OkAt(inputLen, edits, k)
      invariant idx > 0 ==> prevEnd == edits[idx - 1].end
    {
      var e := edits[idx];
      if e.start > e.end {
        assert !OkAt(inputLen, edits, idx);
        return Err(InvalidEdit(idx, StartAfterEnd));
      }
      if e.end > inputLen {
        assert !OkAt(inputLen, edits, idx);
        return Err(InvalidEdit(idx, EndOutOfBounds));
      }
      if idx > 0 && e.start < prevEnd {
        assert !OkAt(inputLen, edits, idx);
        return Err(OverlappingEdits(edits[idx - 1].start, edits[idx - 1].end, e.start, e.end));
      }
      if |e.outputByteToInputByte| != |e.replacement| {
        assert !OkAt(inputLen, edits, idx);
        return Err(InvalidEdit(idx, OriginLengthMismatch));
      }
      if e.movedDelimLen > |e.replacement| {
        assert !OkAt(inputLen, edits, idx);
        return Err(InvalidEdit(idx, MovedDelimTooLong));
      }
      var outOff := 0;
      while outOff < |e.outputByteToInputByte|
        invariant 0 <= outOff <= |e.outputByteToInputByte|
        invariant OriginsInBounds(inputLen, e.outputByteToInputByte[..outOff])
      {
        if e.outputByteToInputByte[outOff].Some? && e.outputByteToInputByte[outOff].value >= inputLen {
          assert FirstOutOfBounds(inputLen, e.outputByteToInputByte) == outOff by {
            assert forall j :: 0 <= j < outOff ==> e.outputByteToInputByte[..outOff][j] == e.outputByteToInputByte[j];
          }
          assert !OkAt(inputLen, edits, idx);
            return Err(InvalidEdit(idx, OriginOutOfBounds(outOff)));
        }
        assert e.outputByteToInputByte[..outOff + 1] == e.outputByteToInputByte[..outOff] + [e.outputByteToInputByte[outOff]];
        outOff := outOff + 1;
      }
      assert e.outputByteToInputByte[..outOff] == e.outputByteToInputByte;
      prevEnd := e.end;
      idx := idx + 1;
    }
    return Ok(());
  }

  /** Validated edits are pairwise disjoint and sorted, not just adjacent ones. */
  lemma {:induction false} ValidEditsDisjoint(inputLen: nat, edits: seq<Edit>, i: nat, j: nat)
    requires EditsValid(inputLen, edits) && i < j < |edits|
    ensures edits[i].end <= edits[j].start
    decreases j - i
  {
    assert OkAt(inputLen, edits, j);
    if i + 1 < j {
      ValidEditsDisjoint(inputLen, edits, i, j - 1);
      assert OkAt(inputLen, edits, j - 1);
    }
  }

  /** Validated edits form a valid byte splice and a valid origin splice of the same shape. */
  lemma {:induction false} ValidEditsArePieces(inputLen: nat, edits: seq<Edit>)
    requires EditsValid(inputLen, edits)
    ensures PiecesValid(inputLen, BytePieces(edits))
    ensures PiecesValid(inputLen, OriginPieces(edits))
    ensures Delta(OriginPieces(edits)) == Delta(BytePieces(edits))
  {
    forall k | 0 <= k < |edits| ensures WellFormed(inputLen, edits[k]) {
      assert OkAt(inputLen, edits, k);
    }
    forall k | 0 < k < |edits| ensures edits[k - 1].end <= edits[k].start {
      assert OkAt(inputLen, edits, k);
    }
    SameDelta(edits);
  }

  lemma {:induction false} SameDelta(edits: seq<Edit>)
    requires forall k :: 0 <= k < |edits| ==> |edits[k].outputByteToInputByte| == |edits[k].replacement|
    ensures Delta(OriginPieces(edits)) == Delta(BytePieces(edits))
    decreases |edits|
  {
    if edits != [] {
      var init := edits[..|edits| - 1];
      assert OriginPieces(edits)[..|edits| - 1] == OriginPieces(init);
      assert BytePieces(edits)[..|edits| - 1] == BytePieces(init);
      SameDelta(init);
    }
  }

  /**
   * The origin map of a validated edit list: for each output byte, the input byte it came
   * from (None for inserted bytes).
   */
  function OriginMap(inputLen: nat, edits: seq<Edit>): (r: seq<Option<nat>>)
    requires EditsValid(inputLen, edits)
    ensures |r| == inputLen + Delta(BytePieces(edits))
  {
    ValidEditsArePieces(inputLen, edits);
    Apply(Identity(inputLen), OriginPieces(edits))
  }

  // ---------------------------------------------------------------------------------------
  // Line indexing: compute_line_starts, line_col_to_byte, byte_to_line_col
  // ---------------------------------------------------------------------------------------

  /** `starts` is 0 followed by i+1 for every '\n' at index i, in increasing order. */
  ghost predicate IsLineStarts(s: seq<byte>, starts: seq<nat>) {
    && |starts| > 0 && starts[0] == 0
    && StrictlyIncreasing(starts)
    && (forall k :: 0 < k < |starts| ==> 0 < starts[k] <= |s| && s[starts[k] - 1] == LF)
    && (forall i :: 0 <= i < |s| && s[i] == LF ==> i + 1 in starts)
  }

  method ComputeLineStarts(s: seq<byte>) returns (starts: seq<nat>)
    ensures IsLineStarts(s, starts)
  {
    starts := [0];
    for i := 0 to |s|
      invariant |starts| > 0 && starts[0] == 0
      invariant StrictlyIncreasing(starts)
      invariant forall k :: 0 <= k < |starts| ==> starts[k] <= i
      invariant forall k :: 0 < k < |starts| ==> 0 < starts[k] <= |s| && s[starts[k] - 1] == LF
      invariant forall j :: 0 <= j < i && s[j] == LF ==> j + 1 in starts
    {
      if s[i] == LF {
        starts := starts + [i + 1];
      }
    }
  }

  /**
   * When a and b agree below k, the k-th start of b occurs in a at an index >= k, so a has a
   * k-th start and it is no later than b's.
   */
  lemma LineStartFound(s: seq<byte>, a: seq<nat>, b: seq<nat>, k: nat)
    requires IsLineStarts(s, a) && IsLineStarts(s, b) && k < |b|
    requires forall m :: 0 <= m < k && m < |a| ==> a[m] == b[m]
    requires k <= |a|
    ensures k < |a| && a[k] <= b[k]
  {
    if k > 0 {
      assert s[b[k] - 1] == LF;
      assert b[k] in a;
      var m :| 0 <= m < |a| && a[m] == b[k];
      assert k <= m;
    }
  }

  lemma {:induction false} LineStartsPrefix(s: seq<byte>, a: seq<nat>, b: seq<nat>)
    requires IsLineStarts(s, a) && IsLineStarts(s, b)
    ensures |b| <= |a| && forall m :: 0 <= m < |b| ==> a[m] == b[m]
  {
    var k := 0;
    while k < |b|
      invariant k <= |b| && k <= |a|
      invariant forall m :: 0 <= m < k ==> a[m] == b[m]
    {
      LineStartFound(s, a, b, k);
      LineStartFound(s, b, a, k);
      k := k + 1;
    }
  }

  /** Line starts are determined by the bytes: two lists satisfying IsLineStarts are equal. */
  lemma {:induction false} LineStartsUnique(s: seq<byte>, a: seq<nat>, b: seq<nat>)
    requires IsLineStarts(s, a) && IsLineStarts(s, b)
    ensures a == b
  {
    LineStartsPrefix(s, a, b);
    LineStartsPrefix(s, b, a);
  }

  /** The source's fixture: "a\nbc\nd\n" has line starts [0, 2, 5, 7]. */
  lemma LineStartsExample()
    ensures forall starts :: IsLineStarts(Ascii("a\nbc\nd\n"), starts) ==> starts == [0, 2, 5, 7]
  {
    var s := Ascii("a\nbc\nd\n");
    assert IsLineStarts(s, [0, 2, 5, 7]) by {
      forall i | 0 <= i < |s| && s[i] == LF ensures i + 1 in [0, 2, 5, 7] {
        assert i == 1 || i == 4 || i == 6;
      }
    }
    forall starts | IsLineStarts(s, starts) ensures starts == [0, 2, 5, 7] {
      LineStartsUnique(s, starts, [0, 2, 5, 7]);
    }
  }

  /** Byte offset of a (line, byte column) position; None for a line beyond the last one. */
  function LineColToByte(starts: seq<nat>, line: nat, col: nat): (r: Option<nat>)
    ensures r.None? <==> line >= |starts|
  {
    if line < |starts| then Some(starts[line] + col) else None
  }

  /**
   * (line, byte column) of a byte offset: the line is the last one whose start is <= byte;
   * a byte past the end extends the final line.
   */
  function ByteToLineCol(starts: seq<nat>, byte: nat): (r: (nat, nat))
    requires |starts| > 0 && Sorted(starts)
    ensures r.0 < |starts|
    ensures forall k :: r.0 < k < |starts| ==> starts[k] > byte
    ensures starts[0] <= byte ==> starts[r.0] <= byte && r.1 == byte - starts[r.0]
    ensures starts[0] > byte ==> r == (0, 0)
  {
    var line := LastAtOrBefore(starts, byte);
    // `byte.saturating_sub(line_starts[line])`
    (line, if byte >= starts[line] then byte - starts[line] else 0)
  }

  lemma ByteToLineColAtLineStart(starts: seq<nat>, i: nat)
    requires |starts| > 0 && StrictlyIncreasing(starts) && i < |starts|
    ensures ByteToLineCol(starts, starts[i]) == (i, 0)
  {
    assert starts[0] <= starts[i];
  }

  lemma ByteToLineColPastEnd(starts: seq<nat>, byte: nat)
    requires |starts| > 0 && Sorted(starts) && byte >= starts[|starts| - 1]
    ensures ByteToLineCol(starts, byte) == (|starts| - 1, byte - starts[|starts| - 1])
  {
    assert starts[0] <= starts[|starts| - 1];
  }

  lemma LineColRoundTrip(starts: seq<nat>, byte: nat)
    requires |starts| > 0 && Sorted(starts) && starts[0] <= byte
    ensures LineColToByte(starts, ByteToLineCol(starts, byte).0, ByteToLineCol(starts, byte).1) == Some(byte)
  {
  }

  // ---------------------------------------------------------------------------------------
  // compute_output_spans
  // ---------------------------------------------------------------------------------------

  /** An edit and the output range [outStart, outEnd) its replacement occupies. */
  datatype OutputSpan = OutputSpan(edit: Edit, outStart: nat, outEnd: nat)

  /** `spans` are the output spans of `edits`: shifted by the deltas of the edits before them. */
  ghost predicate SpansOf(edits: seq<Edit>, spans: seq<OutputSpan>) {
    |spans| == |edits| && forall i {:trigger SpanAt(edits, spans[i], i)} :: 0 <= i < |edits| ==> SpanAt(edits, spans[i], i)
  }

  ghost predicate SpanAt(edits: seq<Edit>, span: OutputSpan, i: nat)
    requires i < |edits|
  {
    && span.edit == edits[i]
    && span.outStart == edits[i].start + Shift(edits, i)
    && span.outEnd == span.outStart + |edits[i].replacement|
  }

  method ComputeOutputSpans(inputLen: nat, edits: seq<Edit>) returns (spans: seq<OutputSpan>, expectedOutLen: nat)
    requires PiecesOrdered(BytePieces(edits))
    ensures SpansOf(edits, spans)
    ensures expectedOutLen == Max(0, inputLen + Delta(BytePieces(edits)))
  {
    spans := [];
    var delta: int := 0;
    var i := 0;
    while i < |edits|
      invariant 0 <= i <= |edits|
      invariant delta == Shift(edits, i)
      invariant |spans| == i
      invariant forall k :: 0 <= k < i ==> SpanAt(edits, spans[k], k)
    {
      var e := edits[i];
      ShiftStep(edits, i);
      var outStart: nat := e.start + delta;
      var outEnd := outStart + |e.replacement|;
      assert SpanAt(edits, OutputSpan(e, outStart, outEnd), i);
      spans := spans + [OutputSpan(e, outStart, outEnd)];
      delta := delta + |e.replacement| - (e.end - e.start);
      i := i + 1;
    }
    assert edits[..i] == edits;
    var total := inputLen + delta;
    expectedOutLen := if total >= 0 then total else 0;
  }

  /** How the shift grows by one edit, and that a shifted start is never negative. */
  lemma ShiftStep(edits: seq<Edit>, i: nat)
    requires PiecesOrdered(BytePieces(edits)) && i < |edits|
    ensures edits[i].start + Shift(edits, i) >= 0
    ensures Shift(edits, i + 1) == Shift(edits, i) + |edits[i].replacement| - (edits[i].end - edits[i].start)
  {
    var ps := BytePieces(edits);
    assert BytePieces(edits[..i]) == ps[..i];
    assert BytePieces(edits[..i + 1]) == ps[..i + 1];
    ShiftedCursorNonNegative(ps, i);
    EmittedStepDelta(ps, i);
  }

  /**
   * Consecutive output spans keep the unedited input gap between them: span i starts exactly
   * (start_i - end_{i-1}) bytes after span i-1 ends, so edits never overlap in the output.
   */
  lemma {:induction false} SpansKeepGaps(edits: seq<Edit>, spans: seq<OutputSpan>, i: nat)
    requires SpansOf(edits, spans) && 0 < i < |edits|
    ensures spans[i].outStart - spans[i - 1].outEnd == edits[i].start - edits[i - 1].end
  {
    assert SpanAt(edits, spans[i], i) && SpanAt(edits, spans[i - 1], i - 1);
    var ps := BytePieces(edits);
    assert BytePieces(edits[..i]) == ps[..i];
    assert BytePieces(edits[..i - 1]) == ps[..i - 1];
    EmittedStepDelta(ps, i - 1);
  }

  /** Each span is exactly where the apply loop puts that edit's replacement. */
  lemma {:induction false} SpanHoldsReplacement(src: seq<byte>, edits: seq<Edit>, spans: seq<OutputSpan>, i: nat)
    requires EditsValid(|src|, edits) && SpansOf(edits, spans) && i < |edits|
    ensures PiecesValid(|src|, BytePieces(edits))
    ensures spans[i].outStart <= spans[i].outEnd <= |Apply(src, BytePieces(edits))|
    ensures Apply(src, BytePieces(edits))[spans[i].outStart..spans[i].outEnd] == edits[i].replacement
  {
    ValidEditsArePieces(|src|, edits);
    var ps := BytePieces(edits);
    assert SpanAt(edits, spans[i], i);
    assert BytePieces(edits[..i]) == ps[..i];
    var out := Apply(src, ps);
    var lo := spans[i].outStart;
    PieceWithin(src, ps, i);
    forall j | 0 <= j < |edits[i].replacement| ensures out[lo + j] == edits[i].replacement[j] {
      ContentAt(src, ps, i, j);
    }
  }

  // ---------------------------------------------------------------------------------------
  // build_output_to_input_map
  // ---------------------------------------------------------------------------------------

  /** The edits carried by the spans. */
  function EditsOfSpans(spans: seq<OutputSpan>): (edits: seq<Edit>)
    ensures |edits| == |spans| && forall i :: 0 <= i < |spans| ==> edits[i] == spans[i].edit
  {
    seq(|spans|, i requires 0 <= i < |spans| => spans[i].edit)
  }

  /**
   * The origin map has outputLen entries and never names a byte outside the input. When the
   * spans come from validated edits and outputLen is at most the expected output length, it is
   * the origin splice of those edits, cut to outputLen: unedited bytes map to themselves and
   * replacement byte j maps to the edit's j-th origin.
   */
  method BuildOutputToInputMap(inputLen: nat, outputLen: nat, spans: seq<OutputSpan>)
    returns (outToIn: seq<Option<nat>>)
    ensures |outToIn| == outputLen
    ensures OriginsInBounds(inputLen, outToIn)
    ensures EditsValid(inputLen, EditsOfSpans(spans)) && SpansOf(EditsOfSpans(spans), spans)
      && outputLen <= inputLen + Delta(BytePieces(EditsOfSpans(spans)))
      ==> outToIn == OriginMap(inputLen, EditsOfSpans(spans))[..outputLen]
  {
    ghost var edits := EditsOfSpans(spans);
    ghost var good := EditsValid(inputLen, edits) && SpansOf(edits, spans)
      && outputLen <= inputLen + Delta(BytePieces(edits));
    ghost var target: seq<Option<nat>> := [];
    if good {
      target := OriginMap(inputLen, edits);
    }

    var m: array<Option<nat>> := new Option<nat>[outputLen](_ => None);
    var inCursor: nat := 0;
    var outCursor: nat := 0;
    var i := 0;
    while i < |spans|
      invariant 0 <= i <= |spans|
      invariant m.Length == outputLen
      invariant OriginsInBounds(inputLen, m[..])
      invariant good ==> i <= |edits| && (inCursor, outCursor) == CursorsAfter(edits, spans, i)
      invariant good ==> Agrees(m[..], target, outCursor)
    {
      var e := spans[i].edit;
      if good {
        SpanStart(inputLen, edits, spans, i, inCursor, outCursor);
      }
      // Unchanged region before the edit.
      if e.start > inCursor {
        var len := e.start - inCursor;
        ghost var before := m[..];
        var stopped := CopyRun(m, inputLen, inCursor, outCursor, len);
        if good {
          RunStep(inputLen, edits, spans, i, inCursor, outCursor, len, before, target);
        }
        if stopped {
          if good {
            AgreesAll(m[..], target, outCursor + len);
          }
          return m[..];
        }
        outCursor := outCursor + len;
      }

      // Edit replacement bytes.
      if spans[i].outStart != outCursor {
        outCursor := spans[i].outStart;
      }
      ghost var before := m[..];
      var stopped := CopyOrigins(m, inputLen, outCursor, e.outputByteToInputByte);
      if good {
        ContentStep(inputLen, edits, spans, i, outCursor, e.outputByteToInputByte, before, target);
      }
      if stopped {
        if good {
          AgreesAll(m[..], target, outCursor + |e.outputByteToInputByte|);
        }
        return m[..];
      }
      inCursor := e.end;
      outCursor := spans[i].outEnd;
      i := i + 1;
    }

    // Trailing unchanged region.
    if inCursor < inputLen {
      var len := inputLen - inCursor;
      ghost var before := m[..];
      var _ := CopyRun(m, inputLen, inCursor, outCursor, len);
      if good {
        RunStep(inputLen, edits, spans, i, inCursor, outCursor, len, before, target);
      }
    }
    if good {
      OriginTail(inputLen, edits, spans, inCursor, outCursor);
      AgreesAll(m[..], target, outCursor + (inputLen - inCursor));
    }
    return m[..];
  }

  /** `mv` holds the target's entries below `upto` and None from there on. */
  ghost predicate Agrees(mv: seq<Option<nat>>, target: seq<Option<nat>>, upto: nat) {
    |mv| <= |target| && forall q :: 0 <= q < |mv| ==> mv[q] == (if q < upto then target[q] else None)
  }

  lemma AgreesAll(mv: seq<Option<nat>>, target: seq<Option<nat>>, upto: nat)
    requires Agrees(mv, target, upto) && |mv| <= upto
    ensures mv == target[..|mv|]
  {
  }

  /** What the unchanged-region loop leaves in the map. */
  function RunFill(mv: seq<Option<nat>>, inputLen: nat, inFrom: nat, outFrom: nat, len: nat): (r: seq<Option<nat>>)
    ensures |r| == |mv|
  {
    seq(|mv|, q requires 0 <= q < |mv| =>
      if outFrom <= q < outFrom + len && q - outFrom + inFrom < inputLen then Some(q - outFrom + inFrom) else mv[q])
  }

  /** What the replacement loop leaves in the map. */
  function OriginsFill(mv: seq<Option<nat>>, inputLen: nat, outFrom: nat, origins: seq<Option<nat>>): (r: seq<Option<nat>>)
    ensures |r| == |mv|
  {
    seq(|mv|, q requires 0 <= q < |mv| =>
      if outFrom <= q < outFrom + |origins| && origins[q - outFrom].Some? && origins[q - outFrom].value < inputLen
      then origins[q - outFrom] else mv[q])
  }

  /**
   * The unchanged-region loop of build_output_to_input_map: output byte outFrom + k gets input
   * byte inFrom + k (when that is inside the input), for k < len, stopping at the end of the map.
   */
  method CopyRun(m: array<Option<nat>>, inputLen: nat, inFrom: nat, outFrom: nat, len: nat)
    returns (stopped: bool)
    modifies m
    ensures stopped <==> len > 0 && outFrom + len > m.Length
    ensures m[..] == RunFill(old(m[..]), inputLen, inFrom, outFrom, len)
    ensures OriginsInBounds(inputLen, old(m[..])) ==> OriginsInBounds(inputLen, m[..])
  {
    var k := 0;
    while k < len
      invariant 0 <= k <= len
      invariant k > 0 ==> outFrom + k <= m.Length
      invariant m[..] == RunFill(old(m[..]), inputLen, inFrom, outFrom, k)
    {
      var inByte := inFrom + k;
      var outByte := outFrom + k;
      if outByte >= m.Length {
        assert RunFill(old(m[..]), inputLen, inFrom, outFrom, k) == RunFill(old(m[..]), inputLen, inFrom, outFrom, len);
        return true;
      }
      if inByte < inputLen {
        m[outByte] := Some(inByte);
      }
      k := k + 1;
    }
    return false;
  }

  /**
   * The replacement loop of build_output_to_input_map: output byte outFrom + j gets the j-th
   * origin when it is inside the input, stopping at the end of the map.
   */
  method CopyOrigins(m: array<Option<nat>>, inputLen: nat, outFrom: nat, origins: seq<Option<nat>>)
    returns (stopped: bool)
    modifies m
    ensures stopped <==> |origins| > 0 && outFrom + |origins| > m.Length
    ensures m[..] == OriginsFill(old(m[..]), inputLen, outFrom, origins)
    ensures OriginsInBounds(inputLen, old(m[..])) ==> OriginsInBounds(inputLen, m[..])
  {
    var j := 0;
    while j < |origins|
      invariant 0 <= j <= |origins|
      invariant j > 0 ==> outFrom + j <= m.Length
      invariant m[..] == OriginsFill(old(m[..]), inputLen, outFrom, origins[..j])
    {
      var outByte := outFrom + j;
      if outByte >= m.Length {
        assert OriginsFill(old(m[..]), inputLen, outFrom, origins[..j]) == OriginsFill(old(m[..]), inputLen, outFrom, origins);
        return true;
      }
      if origins[j].Some? && origins[j].value < inputLen {
        m[outByte] := origins[j];
      }
      j := j + 1;
      assert origins[..j][..j - 1] == origins[..j - 1];
    }
    assert origins[..j] == origins;
    return false;
  }

  /** An unchanged run that the target copies from the input extends the agreement. */
  lemma RunWritten(mv: seq<Option<nat>>, target: seq<Option<nat>>, inputLen: nat, inFrom: nat, outFrom: nat, len: nat)
    requires Agrees(mv, target, outFrom)
    requires forall q :: outFrom <= q < outFrom + len && q < |mv| ==>
               q - outFrom + inFrom < inputLen && target[q] == Some(q - outFrom + inFrom)
    ensures Agrees(RunFill(mv, inputLen, inFrom, outFrom, len), target, outFrom + len)
  {
  }

  /** A replacement whose origins the target holds extends the agreement. */
  lemma OriginsWritten(mv: seq<Option<nat>>, target: seq<Option<nat>>, inputLen: nat, outFrom: nat, origins: seq<Option<nat>>)
    requires Agrees(mv, target, outFrom)
    requires OriginsInBounds(inputLen, origins)
    requires forall q :: outFrom <= q < outFrom + |origins| && q < |mv| ==> target[q] == origins[q - outFrom]
    ensures Agrees(OriginsFill(mv, inputLen, outFrom, origins), target, outFrom + |origins|)
  {
  }

  /** The cursors of build_output_to_input_map after the first i spans. */
  function CursorsAfter(edits: seq<Edit>, spans: seq<OutputSpan>, i: nat): (nat, nat)
    requires i <= |edits| && i <= |spans|
  {
    if i == 0 then (0, 0) else (edits[i - 1].end, spans[i - 1].outEnd)
  }

  /** The cursors are the splice cursor of the first i edits and that cursor shifted by their delta. */
  lemma CursorsMeaning(inputLen: nat, edits: seq<Edit>, spans: seq<OutputSpan>, i: nat)
    requires EditsValid(inputLen, edits) && SpansOf(edits, spans) && i <= |edits|
    ensures CursorsAfter(edits, spans, i).0 == Cursor(OriginPieces(edits)[..i])
    ensures CursorsAfter(edits, spans, i).1 == CursorsAfter(edits, spans, i).0 + Shift(edits, i)
  {
    if i == 0 {
      assert edits[..0] == [];
      assert BytePieces([]) == [];
    } else {
      OriginStep(inputLen, edits, spans, i - 1);
    }
  }

  /** Edit i starts at the input cursor or after it, and its span after the copied run. */
  lemma SpanStart(inputLen: nat, edits: seq<Edit>, spans: seq<OutputSpan>, i: nat, inCursor: nat, outCursor: nat)
    requires EditsValid(inputLen, edits) && SpansOf(edits, spans) && i < |edits|
    requires (inCursor, outCursor) == CursorsAfter(edits, spans, i)
    ensures inCursor <= edits[i].start
    ensures spans[i].outStart == outCursor + (edits[i].start - inCursor)
  {
    CursorsMeaning(inputLen, edits, spans, i);
    OriginRun(inputLen, edits, i, inCursor, outCursor);
    assert SpanAt(edits, spans[i], i);
  }

  /** Copying the unchanged run after the first i edits extends the agreement with the origin map. */
  lemma RunStep(inputLen: nat, edits: seq<Edit>, spans: seq<OutputSpan>, i: nat, inCursor: nat, outCursor: nat,
                len: nat, mv: seq<Option<nat>>, target: seq<Option<nat>>)
    requires EditsValid(inputLen, edits) && SpansOf(edits, spans) && i <= |edits|
    requires (inCursor, outCursor) == CursorsAfter(edits, spans, i)
    requires inCursor + len == (if i < |edits| then edits[i].start else inputLen)
    requires target == OriginMap(inputLen, edits) && Agrees(mv, target, outCursor)
    ensures Agrees(RunFill(mv, inputLen, inCursor, outCursor, len), target, outCursor + len)
  {
    CursorsMeaning(inputLen, edits, spans, i);
    OriginRun(inputLen, edits, i, inCursor, outCursor);
    RunWritten(mv, target, inputLen, inCursor, outCursor, len);
  }

  /** Writing edit i's origins at its output span extends the agreement with the origin map. */
  lemma ContentStep(inputLen: nat, edits: seq<Edit>, spans: seq<OutputSpan>, i: nat, outFrom: nat,
                    origins: seq<Option<nat>>, mv: seq<Option<nat>>, target: seq<Option<nat>>)
    requires EditsValid(inputLen, edits) && SpansOf(edits, spans) && i < |edits|
    requires outFrom == spans[i].outStart && origins == edits[i].outputByteToInputByte
    requires target == OriginMap(inputLen, edits) && Agrees(mv, target, outFrom)
    ensures spans[i].outEnd == outFrom + |origins|
    ensures Agrees(OriginsFill(mv, inputLen, outFrom, origins), target, outFrom + |origins|)
  {
    OriginContent(inputLen, edits, spans, i);
    OriginsWritten(mv, target, inputLen, spans[i].outStart, edits[i].outputByteToInputByte);
  }

  /** The unchanged run after the first i edits, as the origin map holds it. */
  lemma OriginRun(inputLen: nat, edits: seq<Edit>, i: nat, inCursor: nat, outCursor: nat)
    requires EditsValid(inputLen, edits) && i <= |edits|
    requires inCursor == Cursor(OriginPieces(edits)[..i]) && outCursor == inCursor + Shift(edits, i)
    ensures inCursor <= (if i < |edits| then edits[i].start else inputLen) <= inputLen
    ensures outCursor + ((if i < |edits| then edits[i].start else inputLen) - inCursor)
              <= |OriginMap(inputLen, edits)|
    ensures forall q :: outCursor <= q < outCursor + ((if i < |edits| then edits[i].start else inputLen) - inCursor) ==>
              q - outCursor + inCursor < inputLen
              && OriginMap(inputLen, edits)[q] == Some(q - outCursor + inCursor)
  {
    var ps := OriginPieces(edits);
    ValidEditsArePieces(inputLen, edits);
    ShiftOfOrigins(inputLen, edits, i);
    CopiedRun(Identity(inputLen), ps, i);
  }

  /** Edit i's origins sit in the origin map at its output span. */
  lemma OriginContent(inputLen: nat, edits: seq<Edit>, spans: seq<OutputSpan>, i: nat)
    requires EditsValid(inputLen, edits) && SpansOf(edits, spans) && i < |edits|
    ensures spans[i].outStart == edits[i].start + Shift(edits, i)
    ensures spans[i].outEnd == spans[i].outStart + |edits[i].outputByteToInputByte|
    ensures spans[i].outEnd <= |OriginMap(inputLen, edits)|
    ensures OriginsInBounds(inputLen, edits[i].outputByteToInputByte)
    ensures forall q :: spans[i].outStart <= q < spans[i].outEnd ==>
              OriginMap(inputLen, edits)[q] == edits[i].outputByteToInputByte[q - spans[i].outStart]
  {
    assert SpanAt(edits, spans[i], i);
    assert OkAt(inputLen, edits, i);
    OriginPieceRun(inputLen, edits, i);
  }

  /** Edit i's origins sit in the origin map from its input start shifted by the edits before it. */
  lemma OriginPieceRun(inputLen: nat, edits: seq<Edit>, i: nat)
    requires EditsValid(inputLen, edits) && i < |edits|
    ensures 0 <= edits[i].start + Shift(edits, i)
    ensures edits[i].start + Shift(edits, i) + |edits[i].outputByteToInputByte| <= |OriginMap(inputLen, edits)|
    ensures forall q :: edits[i].start + Shift(edits, i) <= q < edits[i].start + Shift(edits, i) + |edits[i].outputByteToInputByte| ==>
              OriginMap(inputLen, edits)[q] == edits[i].outputByteToInputByte[q - (edits[i].start + Shift(edits, i))]
  {
    var ps := OriginPieces(edits);
    OriginMapIsApply(inputLen, edits);
    ShiftOfOrigins(inputLen, edits, i);
    OriginPieceAt(edits, i);
    ContentRun(Identity(inputLen), ps, i);
    var lo, o := edits[i].start + Shift(edits, i), edits[i].outputByteToInputByte;
    forall q | lo <= q < lo + |o| ensures OriginMap(inputLen, edits)[q] == o[q - lo] {
      assert Apply(Identity(inputLen), ps)[q] == ps[i].content[q - lo];
    }
  }

  lemma OriginPieceAt(edits: seq<Edit>, i: nat)
    requires i < |edits|
    ensures OriginPieces(edits)[i] == Piece(edits[i].start, edits[i].end, edits[i].outputByteToInputByte)
  {
  }

  lemma OriginMapIsApply(inputLen: nat, edits: seq<Edit>)
    requires EditsValid(inputLen, edits)
    ensures PiecesValid(inputLen, OriginPieces(edits))
    ensures OriginMap(inputLen, edits) == Apply(Identity(inputLen), OriginPieces(edits))
  {
    ValidEditsArePieces(inputLen, edits);
  }

  /** After edit i the cursors are its input end and output end. */
  lemma OriginStep(inputLen: nat, edits: seq<Edit>, spans: seq<OutputSpan>, i: nat)
    requires EditsValid(inputLen, edits) && SpansOf(edits, spans) && i < |edits|
    ensures Cursor(OriginPieces(edits)[..i + 1]) == edits[i].end
    ensures spans[i].outEnd == edits[i].end + Shift(edits, i + 1)
  {
    assert SpanAt(edits, spans[i], i);
    ValidEditsArePieces(inputLen, edits);
    ShiftStep(edits, i);
  }

  /** After the last edit, the tail run reaches the end of the origin map. */
  lemma OriginTail(inputLen: nat, edits: seq<Edit>, spans: seq<OutputSpan>, inCursor: nat, outCursor: nat)
    requires EditsValid(inputLen, edits) && SpansOf(edits, spans)
    requires (inCursor, outCursor) == CursorsAfter(edits, spans, |edits|)
    ensures inCursor <= inputLen
    ensures outCursor + (inputLen - inCursor) == |OriginMap(inputLen, edits)|
  {
    CursorsMeaning(inputLen, edits, spans, |edits|);
    assert edits[..|edits|] == edits;
    assert OriginPieces(edits)[..|edits|] == OriginPieces(edits);
    ValidEditsArePieces(inputLen, edits);
    CursorBound(inputLen, OriginPieces(edits));
  }

  /** The output shift of the first i edits is the same for bytes and for origins. */
  lemma ShiftOfOrigins(inputLen: nat, edits: seq<Edit>, i: nat)
    requires EditsValid(inputLen, edits) && i <= |edits|
    ensures Shift(edits, i) == Delta(OriginPieces(edits)[..i])
  {
    assert OriginPieces(edits[..i]) == OriginPieces(edits)[..i];
    forall k | 0 <= k < i ensures |edits[..i][k].outputByteToInputByte| == |edits[..i][k].replacement| {
      assert OkAt(inputLen, edits, k);
    }
    SameDelta(edits[..i]);
  }
}
