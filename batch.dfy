/** Batch scheduling of one pipeline (colour or mono; the two loops are the
    same): read the files one by one into a buffer, flush the buffer when
    `(i + 1) % batch_size == 0` or at the last file, process and write every
    buffered image, then clear the buffer. A failed read breaks out of the
    whole loop.

    Decoding, the image pipeline and the writes are not modelled: a file is
    represented by its index, a decode by a given success flag, and a write
    by the file name it is saved under. The model stops at the first access the
    tool makes outside a vector (its behaviour is undefined there) and
    reports it in the run's status.

    The loop exists in two variants. `AsWritten` runs the slot loop to
    `batch_size` even for a partial final batch and takes the output name of
    slot `j` at index `i - batch_size + j` in `size_t` arithmetic.
    `Corrected` runs the slot loop over the buffer and names slot `j` after
    the file it was read from, `i + 1 - buffer.size() + j`. */
module Batch {

  /** `size_t` arithmetic is modulo 2^64. */
  const SizeModulus: int := 0x1_0000_0000_0000_0000
  /** The largest `int`, the type of the batch-size global. */
  const IntMax: int := 0x7fff_ffff

  datatype Variant = AsWritten | Corrected

  /** One image written: the index of the file whose image was processed
      and the file name it is saved under. */
  datatype Write = Write(image: int, name: string)

  datatype Status =
    | Completed
      /** The file at `index` could not be decoded; the loop broke there. */
    | ReadFailed(index: int)
      /** Slot `slot` of the buffer was read at file `index`, past its end. */
    | SlotOverrun(index: int, slot: int)
      /** The output name of slot `slot` was taken at index `name`, outside the file list. */
    | NameOutOfRange(index: int, slot: int, name: int)

  /** The batches flushed (file indices in the buffer at each flush), the
      writes in order, and how the loop ended. */
  datatype Run = Run(batches: seq<seq<int>>, writes: seq<Write>, status: Status)

  /** The two paths a write saves to: the annotated image, named with the
      `processed_` prefix in front of the save directory, then the reinforced
      map, whose path is the first behind the `interestpoint_` prefix. */
  function OutputPaths(saveDir: string, w: Write): (paths: (string, string))
    ensures |paths.0| == 10 + |saveDir| + |w.name|
    ensures paths.0[..10] == "processed_" && paths.0[10..10 + |saveDir|] == saveDir
    ensures paths.0[10 + |saveDir|..] == w.name
    ensures |paths.1| == 14 + |paths.0| && paths.1[..14] == "interestpoint_" && paths.1[14..] == paths.0
  {
    var processed := "processed_" + saveDir + w.name;
    (processed, "interestpoint_" + processed)
  }

  function Min(a: int, b: int): int { if a < b then a else b }

  /** The consecutive file indices `[s, e)`. */
  function Range(s: int, e: int): (r: seq<int>)
    requires s <= e
    ensures |r| == e - s && forall t :: 0 <= t < |r| ==> r[t] == s + t
  {
    seq(e - s, t => s + t)
  }

  /** How many slots the flush visits. */
  function Slots(v: Variant, b: int, len: int): int
  {
    match v
    case AsWritten => b
    case Corrected => len
  }

  /** The file index whose name is used for slot `j` of a flush at file `i`. */
  function NameIndex(v: Variant, i: int, b: int, len: int, j: int): int
  {
    match v
    case AsWritten => (i - b + j) % SizeModulus
    case Corrected => i + 1 - len + j
  }

  /** The slot loop of a flush at file `i`, from slot `j` on: the writes it
      makes and how it ends. */
  function FlushFrom(v: Variant, names: seq<string>, b: int, i: int, buffer: seq<int>, j: int): (f: (seq<Write>, Status))
    requires 0 <= j
    ensures forall w :: w in f.0 ==> w.image in buffer
    decreases Slots(v, b, |buffer|) - j
  {
    if j >= Slots(v, b, |buffer|) then ([], Completed)
    else if j >= |buffer| then ([], SlotOverrun(i, j))
    else
      var n := NameIndex(v, i, b, |buffer|, j);
      if n < 0 || n >= |names| then ([], NameOutOfRange(i, j, n))
      else
        var rest := FlushFrom(v, names, b, i, buffer, j + 1);
        ([Write(buffer[j], names[n])] + rest.0, rest.1)
  }

  /** Prefix a run with batches and writes already made. */
  function Then(batches: seq<seq<int>>, writes: seq<Write>, r: Run): Run
  {
    Run(batches + r.batches, writes + r.writes, r.status)
  }

  /** The flush condition at file `i` of `count` files. */
  predicate FlushDue(i: int, count: int, b: int)
    requires b >= 1
  {
    (i + 1) % b == 0 || i == count - 1
  }

  /** The file loop from file `i` on, with `buffer` holding the images read
      since the last flush. */
  function LoopFrom(v: Variant, names: seq<string>, readable: seq<bool>, b: int, i: int, buffer: seq<int>): Run
    requires |readable| == |names| && b >= 1 && 0 <= i <= |names|
    decreases |names| - i
  {
    if i == |names| then Run([], [], Completed)
    else if !readable[i] then Run([], [], ReadFailed(i))
    else
      var images := buffer + [i];
      if FlushDue(i, |names|, b) then
        var f := FlushFrom(v, names, b, i, images, 0);
        if f.1 != Completed then Run([images], f.0, f.1)
        else Then([images], f.0, LoopFrom(v, names, readable, b, i + 1, []))
      else LoopFrom(v, names, readable, b, i + 1, images)
  }

  /** The whole run over a file list. */
  function Process(v: Variant, names: seq<string>, readable: seq<bool>, b: int): Run
    requires |readable| == |names| && b >= 1
  {
    LoopFrom(v, names, readable, b, 0, [])
  }

  /** One slot of a flush that names an existing file. */
  lemma FlushStep(v: Variant, names: seq<string>, b: int, i: int, images: seq<int>, j: int)
    requires 0 <= j < Slots(v, b, |images|) && j < |images|
    requires 0 <= NameIndex(v, i, b, |images|, j) < |names|
    ensures FlushFrom(v, names, b, i, images, j) ==
        ([Write(images[j], names[NameIndex(v, i, b, |images|, j)])] + FlushFrom(v, names, b, i, images, j + 1).0,
         FlushFrom(v, names, b, i, images, j + 1).1)
  {
  }

  /** A slot past the buffer, or named outside the file list, ends the flush. */
  lemma FlushStops(v: Variant, names: seq<string>, b: int, i: int, images: seq<int>, j: int)
    requires 0 <= j < Slots(v, b, |images|)
    ensures j >= |images| ==> FlushFrom(v, names, b, i, images, j) == ([], SlotOverrun(i, j))
    ensures j < |images| && !(0 <= NameIndex(v, i, b, |images|, j) < |names|) ==>
      FlushFrom(v, names, b, i, images, j) == ([], NameOutOfRange(i, j, NameIndex(v, i, b, |images|, j)))
  {
  }

  /** The slot loop of one flush. */
  method FlushBatch(v: Variant, names: seq<string>, b: int, i: int, images: seq<int>)
    returns (writes: seq<Write>, status: Status)
    ensures (writes, status) == FlushFrom(v, names, b, i, images, 0)
  {
    ghost var whole := FlushFrom(v, names, b, i, images, 0);
    writes := [];
    assert [] + whole.0 == whole.0;
    var slots := Slots(v, b, |images|);
    var j := 0;
    while j < slots
      invariant 0 <= j
      invariant whole.0 == writes + FlushFrom(v, names, b, i, images, j).0
      invariant whole.1 == FlushFrom(v, names, b, i, images, j).1
    {
      if j >= |images| {
        FlushStops(v, names, b, i, images, j);
        status := SlotOverrun(i, j);
        assert writes + [] == writes;
        return;
      }
      var n := NameIndex(v, i, b, |images|, j);
      if n < 0 || n >= |names| {
        FlushStops(v, names, b, i, images, j);
        status := NameOutOfRange(i, j, n);
        assert writes + [] == writes;
        return;
      }
      var w := Write(images[j], names[n]);
      ghost var rest := FlushFrom(v, names, b, i, images, j + 1);
      FlushStep(v, names, b, i, images, j);
      assert writes + ([w] + rest.0) == (writes + [w]) + rest.0;
      writes := writes + [w];
      j := j + 1;
    }
    status := Completed;
    assert writes + [] == writes;
  }

  /** The accumulate/flush loop over the file list. */
  method ProcessFiles(v: Variant, names: seq<string>, readable: seq<bool>, b: int) returns (run: Run)
    requires |readable| == |names| && b >= 1
    ensures run == Process(v, names, readable, b)
  {
    ghost var whole := Process(v, names, readable, b);
    var batches: seq<seq<int>> := [];
    var writes: seq<Write> := [];
    var images: seq<int> := [];
    var i := 0;
    while i < |names|
      invariant 0 <= i <= |names|
      invariant whole == Then(batches, writes, LoopFrom(v, names, readable, b, i, images))
    {
      if !readable[i] {
        LoopStepUnreadable(v, names, readable, b, i, images);
        run := Run(batches, writes, ReadFailed(i));
        return;
      }
      var buf := images + [i];
      if (i + 1) % b == 0 || i == |names| - 1 {
        var w, st := FlushBatch(v, names, b, i, buf);
        if st != Completed {
          LoopStepStop(v, names, readable, b, i, images);
          ThenAppend(batches, writes, [buf], w, Run([], [], st));
          run := Run(batches + [buf], writes + w, st);
          return;
        }
        LoopStepFlush(v, names, readable, b, i, images);
        ThenAppend(batches, writes, [buf], w, LoopFrom(v, names, readable, b, i + 1, []));
        batches, writes, images := batches + [buf], writes + w, [];
      } else {
        LoopStepNoFlush(v, names, readable, b, i, images);
        images := buf;
      }
      i := i + 1;
    }
    assert LoopFrom(v, names, readable, b, i, images) == Run([], [], Completed);
    assert batches + [] == batches && writes + [] == writes;
    run := Run(batches, writes, Completed);
  }

  // ---------------------------------------------------------------------
  // The corrected loop processes every file exactly once, batch by batch.

  /** The write for file `f` when it is named after itself. */
  function WriteFor(names: seq<string>, f: int): Write
    requires 0 <= f < |names|
  {
    Write(f, names[f])
  }

  /** The writes for files `[s, e)`, in order. */
  function WritesFor(names: seq<string>, s: int, e: int): seq<Write>
    requires 0 <= s <= e <= |names|
    decreases e - s
  {
    if s == e then [] else [WriteFor(names, s)] + WritesFor(names, s + 1, e)
  }

  lemma {:induction false} WritesForSplit(names: seq<string>, s: int, m: int, e: int)
    requires 0 <= s <= m <= e <= |names|
    ensures WritesFor(names, s, m) + WritesFor(names, m, e) == WritesFor(names, s, e)
    decreases m - s
  {
    if s < m {
      WritesForSplit(names, s + 1, m, e);
    }
  }

  /** The batches `[s, s + b)`, `[s + b, s + 2b)`, ... cut at `n`. */
  function Chunks(s: int, n: int, b: int): seq<seq<int>>
    requires b >= 1
    decreases n - s
  {
    if s >= n then [] else [Range(s, Min(s + b, n))] + Chunks(s + b, n, b)
  }

  /** The first batch of `Chunks` ends at `e`, the rest start there. */
  lemma ChunksStep(s: int, e: int, n: int, b: int)
    requires b >= 1 && s < e <= n && (e == s + b || e == n) && e <= s + b
    ensures Chunks(s, n, b) == [Range(s, e)] + Chunks(e, n, b)
  {
    assert e == Min(s + b, n);
    if e < s + b {
      assert Chunks(s + b, n, b) == [] == Chunks(e, n, b);
    }
  }

  lemma {:induction false} MulAtLeast(b: int, d: int)
    requires b >= 1 && d >= 1
    ensures b * d >= b
    decreases d
  {
    if d > 1 {
      MulAtLeast(b, d - 1);
      assert b * d == b * (d - 1) + b;
    }
  }

  /** Quotient and remainder are unique. */
  lemma DivModUnique(x: int, b: int, q: int, r: int)
    requires b >= 1 && 0 <= r < b && x == b * q + r
    ensures x % b == r && x / b == q
  {
    var q', r' := x / b, x % b;
    assert x == b * q' + r';
    var d := q - q';
    assert b * d == r' - r by { assert b * q - b * q' == b * (q - q'); }
    if d >= 1 {
      MulAtLeast(b, d);
    } else if d <= -1 {
      MulAtLeast(b, -d);
    }
  }

  /** Stepping the position within a batch. */
  lemma ModSucc(i: int, b: int)
    requires 0 <= i && b >= 1
    ensures (i + 1) % b == if i % b == b - 1 then 0 else i % b + 1
  {
    var q, r := i / b, i % b;
    assert i == b * q + r;
    if r == b - 1 {
      DivModUnique(i + 1, b, q + 1, 0);
    } else {
      DivModUnique(i + 1, b, q, r + 1);
    }
  }

  /** A corrected flush of the files `[s, i]` writes each of them under its
      own name, from slot `j` on. */
  lemma {:induction false} CorrectedFlush(names: seq<string>, b: int, i: int, images: seq<int>, j: int)
    requires 0 <= i < |names| && |images| <= i + 1
    requires images == Range(i + 1 - |images|, i + 1)
    requires 0 <= j <= |images|
    ensures FlushFrom(Corrected, names, b, i, images, j) ==
      (WritesFor(names, i + 1 - |images| + j, i + 1), Completed)
    decreases |images| - j
  {
    if j < |images| {
      CorrectedFlush(names, b, i, images, j + 1);
    }
  }

  /** One step of the loop at a readable file whose flush completes. */
  lemma LoopStepFlush(v: Variant, names: seq<string>, readable: seq<bool>, b: int, i: int, images: seq<int>)
    requires |readable| == |names| && b >= 1 && 0 <= i < |names| && readable[i]
    requires FlushDue(i, |names|, b)
    requires FlushFrom(v, names, b, i, images + [i], 0).1 == Completed
    ensures LoopFrom(v, names, readable, b, i, images) ==
      Then([images + [i]], FlushFrom(v, names, b, i, images + [i], 0).0, LoopFrom(v, names, readable, b, i + 1, []))
  {
  }

  /** One step of the loop at a readable file that is not a flush point. */
  lemma LoopStepNoFlush(v: Variant, names: seq<string>, readable: seq<bool>, b: int, i: int, images: seq<int>)
    requires |readable| == |names| && b >= 1 && 0 <= i < |names| && readable[i]
    requires !FlushDue(i, |names|, b)
    ensures LoopFrom(v, names, readable, b, i, images) == LoopFrom(v, names, readable, b, i + 1, images + [i])
  {
  }

  /** One step of the loop at a file that cannot be decoded. */
  lemma LoopStepUnreadable(v: Variant, names: seq<string>, readable: seq<bool>, b: int, i: int, images: seq<int>)
    requires |readable| == |names| && b >= 1 && 0 <= i < |names| && !readable[i]
    ensures LoopFrom(v, names, readable, b, i, images) == Run([], [], ReadFailed(i))
  {
  }

  /** One step of the loop at a flush that stops the run. */
  lemma LoopStepStop(v: Variant, names: seq<string>, readable: seq<bool>, b: int, i: int, images: seq<int>)
    requires |readable| == |names| && b >= 1 && 0 <= i < |names| && readable[i]
    requires FlushDue(i, |names|, b)
    ensures FlushFrom(v, names, b, i, images + [i], 0).1 != Completed ==>
      LoopFrom(v, names, readable, b, i, images) ==
        Run([images + [i]], FlushFrom(v, names, b, i, images + [i], 0).0, FlushFrom(v, names, b, i, images + [i], 0).1)
  {
  }

  /** Prefixing twice is prefixing with the concatenations. */
  lemma ThenAppend(batches: seq<seq<int>>, writes: seq<Write>, batches2: seq<seq<int>>, writes2: seq<Write>, r: Run)
    ensures Then(batches, writes, Then(batches2, writes2, r)) == Then(batches + batches2, writes + writes2, r)
  {
    assert batches + (batches2 + r.batches) == (batches + batches2) + r.batches;
    assert writes + (writes2 + r.writes) == (writes + writes2) + r.writes;
  }

  /** The corrected loop from file `i`, whose buffer holds the files read
      since the last multiple of `b`, when every file decodes. */
  lemma {:induction false} CorrectedLoop(names: seq<string>, readable: seq<bool>, b: int, i: int, images: seq<int>)
    requires |readable| == |names| && b >= 1 && 0 <= i <= |names|
    requires forall t :: 0 <= t < |names| ==> readable[t]
    requires i < |names| ==> images == Range(i - i % b, i)
    requires i == |names| ==> images == []
    ensures LoopFrom(Corrected, names, readable, b, i, images) ==
      Run(Chunks(i - |images|, |names|, b), WritesFor(names, i - |images|, |names|), Completed)
    decreases |names| - i, 1
  {
    if i < |names| {
      ModSucc(i, b);
      if FlushDue(i, |names|, b) {
        CorrectedLoopFlush(names, readable, b, i, images);
      } else {
        CorrectedLoopNoFlush(names, readable, b, i, images);
      }
    }
  }

  lemma {:induction false} CorrectedLoopFlush(names: seq<string>, readable: seq<bool>, b: int, i: int, images: seq<int>)
    requires |readable| == |names| && b >= 1 && 0 <= i < |names|
    requires forall t :: 0 <= t < |names| ==> readable[t]
    requires |images| <= i && images == Range(i - |images|, i) && |images| < b
    requires (i + 1) % b == 0 ==> |images| == b - 1
    requires FlushDue(i, |names|, b)
    ensures LoopFrom(Corrected, names, readable, b, i, images) ==
      Run(Chunks(i - |images|, |names|, b), WritesFor(names, i - |images|, |names|), Completed)
    decreases |names| - i, 0
  {
    var n := |names|;
    var s := i - |images|;
    var buf := images + [i];
    assert buf == Range(s, i + 1);
    CorrectedFlush(names, b, i, buf, 0);
    var here := WritesFor(names, s, i + 1);
    assert FlushFrom(Corrected, names, b, i, buf, 0) == (here, Completed);
    LoopStepFlush(Corrected, names, readable, b, i, images);
    var rest := LoopFrom(Corrected, names, readable, b, i + 1, []);
    assert LoopFrom(Corrected, names, readable, b, i, images) == Then([buf], here, rest);
    CorrectedLoop(names, readable, b, i + 1, []);
    CorrectedAssemble(names, b, s, i + 1, buf, rest);
  }

  /** A first batch `[s, e)` written in order, followed by a complete
      corrected run from `e`, is a complete corrected run from `s`. */
  lemma CorrectedAssemble(names: seq<string>, b: int, s: int, e: int, buf: seq<int>, rest: Run)
    requires b >= 1 && 0 <= s < e <= |names| && (e == s + b || e == |names|) && e <= s + b
    requires buf == Range(s, e)
    requires rest == Run(Chunks(e, |names|, b), WritesFor(names, e, |names|), Completed)
    ensures Then([buf], WritesFor(names, s, e), rest) ==
      Run(Chunks(s, |names|, b), WritesFor(names, s, |names|), Completed)
  {
    WritesForSplit(names, s, e, |names|);
    ChunksStep(s, e, |names|, b);
  }

  lemma {:induction false} CorrectedLoopNoFlush(names: seq<string>, readable: seq<bool>, b: int, i: int, images: seq<int>)
    requires |readable| == |names| && b >= 1 && 0 <= i < |names|
    requires forall t :: 0 <= t < |names| ==> readable[t]
    requires |images| <= i && images == Range(i - |images|, i)
    requires (i + 1) % b == |images| + 1
    requires !FlushDue(i, |names|, b)
    ensures LoopFrom(Corrected, names, readable, b, i, images) ==
      Run(Chunks(i - |images|, |names|, b), WritesFor(names, i - |images|, |names|), Completed)
    decreases |names| - i, 0
  {
    var buf := images + [i];
    assert buf == Range(i + 1 - |buf|, i + 1);
    LoopStepNoFlush(Corrected, names, readable, b, i, images);
    CorrectedLoop(names, readable, b, i + 1, buf);
  }

  /** With every file decodable, the corrected loop completes, flushes the
      batches `[0, b)`, `[b, 2b)`, ... with a partial last one, and writes
      every file exactly once, in order, under its own name. */
  lemma CorrectedRunIsComplete(names: seq<string>, readable: seq<bool>, b: int)
    requires |readable| == |names| && b >= 1
    requires forall t :: 0 <= t < |names| ==> readable[t]
    ensures Process(Corrected, names, readable, b) ==
      Run(Chunks(0, |names|, b), WritesFor(names, 0, |names|), Completed)
  {
    CorrectedLoop(names, readable, b, 0, []);
  }

  /** Concatenation of the batches. */
  function Flatten(bs: seq<seq<int>>): seq<int>
  {
    if bs == [] then [] else bs[0] + Flatten(bs[1..])
  }

  /** The batches cover `[s, n)` exactly once and in order; each holds at
      most `b` files and all but the last hold exactly `b`. */
  lemma {:induction false} ChunksPartition(s: int, n: int, b: int)
    requires b >= 1 && s <= n
    ensures Flatten(Chunks(s, n, b)) == Range(s, n)
    ensures forall t :: 0 <= t < |Chunks(s, n, b)| ==> 1 <= |Chunks(s, n, b)[t]| <= b
    ensures forall t :: 0 <= t < |Chunks(s, n, b)| - 1 ==> |Chunks(s, n, b)[t]| == b
    decreases n - s
  {
    var cs := Chunks(s, n, b);
    if s < n {
      var e := Min(s + b, n);
      ChunksPartition(e, n, b);
      assert Chunks(s + b, n, b) == Chunks(e, n, b);
      assert cs == [Range(s, e)] + Chunks(e, n, b);
      assert cs[1..] == Chunks(e, n, b);
      assert Range(s, e) + Range(e, n) == Range(s, n);
      if e < n {
        assert |Chunks(e, n, b)| >= 1;
      }
    }
  }

  // ---------------------------------------------------------------------
  // Properties of every variant.

  /** The loop from file `i` never flushes more than `b` images nor an empty
      buffer, given a buffer that holds the files read since the last
      multiple of `b`. */
  lemma {:induction false} LoopBatchesBounded(v: Variant, names: seq<string>, readable: seq<bool>, b: int, i: int, images: seq<int>)
    requires |readable| == |names| && b >= 1 && 0 <= i <= |names|
    requires i < |names| ==> |images| == i % b
    ensures forall t :: 0 <= t < |LoopFrom(v, names, readable, b, i, images).batches| ==>
      1 <= |LoopFrom(v, names, readable, b, i, images).batches[t]| <= b
    decreases |names| - i
  {
    if i < |names| && readable[i] {
      ModSucc(i, b);
      var buf := images + [i];
      if FlushDue(i, |names|, b) {
        if FlushFrom(v, names, b, i, buf, 0).1 == Completed {
          LoopStepFlush(v, names, readable, b, i, images);
          LoopBatchesBounded(v, names, readable, b, i + 1, []);
        }
      } else {
        LoopStepNoFlush(v, names, readable, b, i, images);
        LoopBatchesBounded(v, names, readable, b, i + 1, buf);
      }
    }
  }

  /** The buffer is flushed before it exceeds the batch size: every batch
      holds between 1 and `b` images. */
  lemma BatchesNeverExceed(v: Variant, names: seq<string>, readable: seq<bool>, b: int)
    requires |readable| == |names| && b >= 1
    ensures forall t :: 0 <= t < |Process(v, names, readable, b).batches| ==>
      1 <= |Process(v, names, readable, b).batches[t]| <= b
  {
    if |names| > 0 {
      DivModUnique(0, b, 0, 0);
    }
    LoopBatchesBounded(v, names, readable, b, 0, []);
  }

  /** A run that did not complete and touched no file from `f` on. */
  predicate StopsBefore(r: Run, f: int)
  {
    r.status != Completed &&
    (forall w :: w in r.writes ==> w.image < f) &&
    (forall t, x :: (0 <= t < |r.batches| && x in r.batches[t]) ==> x < f)
  }

  lemma ThenStopsBefore(batches: seq<seq<int>>, writes: seq<Write>, r: Run, f: int)
    requires StopsBefore(r, f)
    requires forall w :: w in writes ==> w.image < f
    requires forall t, x :: (0 <= t < |batches| && x in batches[t]) ==> x < f
    ensures StopsBefore(Then(batches, writes, r), f)
  {
    var out := Then(batches, writes, r);
    forall t, x | 0 <= t < |out.batches| && x in out.batches[t]
      ensures x < f
    {
      if t >= |batches| {
        assert out.batches[t] == r.batches[t - |batches|];
      }
    }
  }

  /** From file `i` on, a read failure at file `f` ends the run before any
      file from `f` on is flushed or written. */
  lemma {:induction false} ReadFailureStopsLoop(v: Variant, names: seq<string>, readable: seq<bool>, b: int, i: int, images: seq<int>, f: int)
    requires |readable| == |names| && b >= 1 && 0 <= i <= f < |names| && !readable[f]
    requires forall x :: x in images ==> x < i
    ensures StopsBefore(LoopFrom(v, names, readable, b, i, images), f)
    decreases |names| - i
  {
    if !readable[i] {
      LoopStepUnreadable(v, names, readable, b, i, images);
    } else {
      var buf := images + [i];
      if FlushDue(i, |names|, b) {
        var fl := FlushFrom(v, names, b, i, buf, 0);
        if fl.1 == Completed {
          LoopStepFlush(v, names, readable, b, i, images);
          ReadFailureStopsLoop(v, names, readable, b, i + 1, [], f);
          ThenStopsBefore([buf], fl.0, LoopFrom(v, names, readable, b, i + 1, []), f);
        } else {
          LoopStepStop(v, names, readable, b, i, images);
        }
      } else {
        LoopStepNoFlush(v, names, readable, b, i, images);
        ReadFailureStopsLoop(v, names, readable, b, i + 1, buf, f);
      }
    }
  }

  /** A file that cannot be decoded stops the whole run (the loop breaks,
      it does not skip the file): the run does not complete and neither that
      file nor any later one is flushed or written. */
  lemma ReadFailureStops(v: Variant, names: seq<string>, readable: seq<bool>, b: int, f: int)
    requires |readable| == |names| && b >= 1 && 0 <= f < |names| && !readable[f]
    ensures Process(v, names, readable, b).status != Completed
    ensures forall w :: w in Process(v, names, readable, b).writes ==> w.image < f
    ensures forall t, x ::
      (0 <= t < |Process(v, names, readable, b).batches| &&
       x in Process(v, names, readable, b).batches[t]) ==> x < f
  {
    ReadFailureStopsLoop(v, names, readable, b, 0, [], f);
  }

  // ---------------------------------------------------------------------
  // The loop as written.

  /** Before the first flush point `p = min(b, n) - 1` nothing is written,
      and reaching `p` ends the run with the wrapped name index. */
  lemma {:induction false} AsWrittenBeforeFirstFlush(names: seq<string>, readable: seq<bool>, b: int, i: int)
    requires |readable| == |names| && 1 <= b <= IntMax && |names| < SizeModulus - IntMax
    requires 0 <= i < Min(b, |names|)
    ensures LoopFrom(AsWritten, names, readable, b, i, Range(0, i)).writes == []
    ensures (forall t :: i <= t < Min(b, |names|) ==> readable[t]) ==>
      var p := Min(b, |names|) - 1;
      LoopFrom(AsWritten, names, readable, b, i, Range(0, i)) ==
        Run([Range(0, p + 1)], [], NameOutOfRange(p, 0, SizeModulus + p - b))
    decreases b - i
  {
    var n := |names|;
    var p := Min(b, n) - 1;
    var buf := Range(0, i) + [i];
    assert buf == Range(0, i + 1);
    if !readable[i] {
    } else if i < p {
      DivModUnique(i + 1, b, 0, i + 1);
      LoopStepNoFlush(AsWritten, names, readable, b, i, Range(0, i));
      AsWrittenBeforeFirstFlush(names, readable, b, i + 1);
    } else {
      if p == b - 1 {
        DivModUnique(b, b, 1, 0);
      }
      assert FlushDue(i, n, b);
      DivModUnique(p - b, SizeModulus, -1, SizeModulus + p - b);
      assert NameIndex(AsWritten, i, b, |buf|, 0) == SizeModulus + p - b;
      assert FlushFrom(AsWritten, names, b, i, buf, 0) == ([], NameOutOfRange(p, 0, SizeModulus + p - b));
    }
  }

  /** The tool as written never writes an output file: the first flush
      takes the name of slot 0 at `i - batch_size + 0`, which is `-1`
      wrapped to `2^64 - 1` for a full first batch (and wraps for a short
      file list too), far past the end of the file list. */
  lemma FirstFlushNameWraps(names: seq<string>, readable: seq<bool>, b: int)
    requires |readable| == |names| && 1 <= b <= IntMax && |names| < SizeModulus - IntMax
    ensures Process(AsWritten, names, readable, b).writes == []
    ensures |names| > 0 && (forall t :: 0 <= t < Min(b, |names|) ==> readable[t]) ==>
      var p := Min(b, |names|) - 1;
      Process(AsWritten, names, readable, b) == Run([Range(0, p + 1)], [], NameOutOfRange(p, 0, SizeModulus + p - b))
  {
    if |names| > 0 {
      assert Range(0, 0) == [];
      AsWrittenBeforeFirstFlush(names, readable, b, 0);
    }
  }

  /** A flush as written at file `i >= b` (any flush after the first):
      slot `j` holds file `i + 1 - size + j` but is written under the name
      of file `i - b + j`, one before it for a full batch; and for a partial
      final batch the slot loop runs on past the buffer's end. */
  lemma {:induction false} AsWrittenLaterFlush(names: seq<string>, b: int, i: int, images: seq<int>, j: int)
    requires 1 <= b <= i < |names| < SizeModulus
    requires 1 <= |images| <= b && images == Range(i + 1 - |images|, i + 1)
    requires 0 <= j <= |images|
    ensures FlushFrom(AsWritten, names, b, i, images, j).1 ==
      if |images| < b then SlotOverrun(i, |images|) else Completed
    ensures |FlushFrom(AsWritten, names, b, i, images, j).0| == |images| - j
    ensures forall t :: 0 <= t < |images| - j ==>
      FlushFrom(AsWritten, names, b, i, images, j).0[t].image == i + 1 - |images| + j + t &&
      FlushFrom(AsWritten, names, b, i, images, j).0[t].name == names[i - b + j + t]
    decreases |images| - j
  {
    if j < |images| {
      DivModUnique(i - b + j, SizeModulus, 0, i - b + j);
      FlushStep(AsWritten, names, b, i, images, j);
      AsWrittenLaterFlush(names, b, i, images, j + 1);
      var rest := FlushFrom(AsWritten, names, b, i, images, j + 1).0;
      var w := Write(images[j], names[i - b + j]);
      assert FlushFrom(AsWritten, names, b, i, images, j).0 == [w] + rest;
      forall t | 0 <= t < |images| - j
        ensures ([w] + rest)[t].image == i + 1 - |images| + j + t && ([w] + rest)[t].name == names[i - b + j + t]
      {
        if t > 0 {
          assert ([w] + rest)[t] == rest[t - 1];
        }
      }
    } else if |images| < b {
      assert FlushFrom(AsWritten, names, b, i, images, j) == ([], SlotOverrun(i, |images|));
    }
  }
}
