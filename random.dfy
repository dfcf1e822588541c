/**
  `RandomBytesBetween` of the protocol's `lib` package: a random byte string
  that sorts, under `bytes.Compare`, between a `start` and an `end` bound.

  The random source is an oracle. `Rand(draw)` answers its k-th call
  `Int31n(n)` with `draw(k) % n`; every answer in [0, n) is the answer of some
  source, so a property proved for all `Rand` values holds for every sequence
  of draws a `*rand.Rand` can produce. A nil `*rand.Rand` is `None`.

  Every way the Go function can panic is an explicit `Panicked` outcome, the
  run-time panic of `rand.Int31n` on a non-positive argument included; the
  lemmas below show which of them can actually happen.
 */
module Random {
  import opened ByteOrder

  datatype Option<T> = None | Some(value: T)

  /** A random source: the raw value behind each successive call. */
  datatype Rand = Rand(draw: nat -> nat)

  /** The `k`-th call `rand.Int31n(n)`; Go's Int31n panics unless 0 < n. */
  function Int31n(src: Rand, k: nat, n: int): (v: int)
    requires 0 < n
    ensures 0 <= v < n
  {
    src.draw(k) % n
  }

  /** Every answer in [0, n) is given by some source: the oracle leaves no draw sequence out. */
  lemma AnyAnswerPossible(k: nat, n: int, v: nat)
    requires v < n
    ensures Int31n(Rand(j => v), k, n) == v
  {
    assert v / n == 0;
  }

  datatype Panic =
    | NilRand                          // rand == nil
    | StartAfterEnd(position: nat)     // start[i] > end[i] at the first difference
    | EndIndexOutOfRange(index: nat)   // end[i] with i == len(end)
    | Int31nArgument(n: int)           // rand.Int31n(n) with n <= 0

  datatype Outcome = Returned(bytes: seq<byte>) | Panicked(reason: Panic)

  function Min(a: nat, b: nat): nat { if a <= b then a else b }
  function Max(a: nat, b: nat): nat { if a <= b then b else a }

  /**
    The target-length loop: starting at `hi`, one byte is dropped for each
    leading draw of 256 out of 257, while `j` counts up to `hi`. Returns the
    target length and the index of the next unused draw.
   */
  function TargetLength(src: Rand, k: nat, j: nat, hi: nat): (r: (nat, nat))
    requires j <= hi
    ensures j <= r.0 <= hi
    ensures k <= r.1
    decreases hi - j
  {
    if j == hi then (hi, k)
    else if Int31n(src, k, 257) == 256 then
      var r := TargetLength(src, k + 1, j + 1, hi);
      (r.0 - 1, r.1)
    else (hi, k + 1)
  }

  /** The state of the fill loop: the bytes written so far, the window and the two flags. */
  datatype Window = Window(bytes: seq<byte>, floor: int, ceiling: int,
                           isPrefixOfStart: bool, isPrefixOfEnd: bool)

  /**
    `floor` and `ceiling` always hold a byte of a bound, 0 or 255, so a draw
    `current` from a non-empty window `floor..ceiling` is a byte and the
    conversion `byte(current)` loses nothing.
   */
  predicate Bounded(w: Window)
  {
    0 <= w.floor && w.ceiling <= 255
  }

  /**
    While the output is a prefix of `start`, `floor` is `start`'s next byte
    (0 past its end); afterwards `floor` is 0 and every extension of the output
    already sorts at or above `start`.
   */
  ghost predicate TracksStart(start: seq<byte>, w: Window)
  {
    if w.isPrefixOfStart then
      |w.bytes| <= |start| && w.bytes == start[..|w.bytes|] &&
      w.floor == (if |w.bytes| < |start| then start[|w.bytes|] as int else 0)
    else
      w.floor == 0 && (IsPrefix(start, w.bytes) || BelowAt(start, w.bytes))
  }

  /**
    While the output is a proper prefix of `end`, `ceiling` is `end`'s next
    byte; afterwards `ceiling` is 255 and the output already sorts below `end`.
   */
  ghost predicate TracksEnd(end: seq<byte>, w: Window)
  {
    if w.isPrefixOfEnd then
      |w.bytes| < |end| && w.bytes == end[..|w.bytes|] && w.ceiling == end[|w.bytes|] as int
    else
      w.ceiling == 255 && BelowAt(w.bytes, end)
  }

  /** The invariant of the fill loop; its first conjunct keeps the Int31n argument positive. */
  ghost predicate WindowInv(start: seq<byte>, end: seq<byte>, w: Window)
  {
    0 <= w.floor <= w.ceiling <= 255 &&
    TracksStart(start, w) && TracksEnd(end, w) &&
    (w.isPrefixOfStart && w.isPrefixOfEnd && |w.bytes| < |start| ==> w.floor < w.ceiling)
  }

  /** The fill loop stops early: the output has just become equal to `end`. */
  predicate Exhausted(end: seq<byte>, w: Window, current: int)
  {
    w.isPrefixOfEnd && current == w.ceiling && |w.bytes| + 1 >= |end|
  }

  /** One turn of the fill loop that does not stop early: write `current`, then move the window. */
  function Next(start: seq<byte>, end: seq<byte>, w: Window, current: int): (w': Window)
    requires 0 <= current <= 255
    requires !Exhausted(end, w, current)
    ensures Bounded(w')
    ensures w'.isPrefixOfStart ==> w.isPrefixOfStart
    ensures w'.isPrefixOfEnd ==> w.isPrefixOfEnd
  {
    var i := |w.bytes|;
    var keepStart := w.isPrefixOfStart && current == w.floor && i + 1 < |start|;
    var keepEnd := w.isPrefixOfEnd && current == w.ceiling;
    Window(w.bytes + [current as byte],
           if keepStart then start[i + 1] as int else 0,
           if keepEnd then end[i + 1] as int else 255,
           keepStart, keepEnd)
  }

  /**
    The fill loop, from window `w` with draws taken from index `k` on, as the
    source writes it: a window with `ceiling < floor` would make `Int31n` panic.
   */
  function Fill(start: seq<byte>, end: seq<byte>, src: Rand, k: nat, target: nat, w: Window): (r: Outcome)
    requires Bounded(w) && |w.bytes| <= target
    ensures r.Returned? ==> |w.bytes| <= |r.bytes| <= target
    decreases target - |w.bytes|
  {
    if |w.bytes| == target then Returned(w.bytes)
    else
      var n := w.ceiling - w.floor + 1;
      if n <= 0 then Panicked(Int31nArgument(n))
      else
        var current := w.floor + Int31n(src, k, n);
        if Exhausted(end, w, current) then Returned(w.bytes + [current as byte])
        else Fill(start, end, src, k + 1, target, Next(start, end, w, current))
  }


  /** The floor update after writing `current` keeps the start side of the window. */
  lemma StartStep(start: seq<byte>, w: Window, current: int, w': Window)
    requires TracksStart(start, w)
    requires w.floor <= current <= 255
    requires w'.bytes == w.bytes + [current as byte]
    requires w'.isPrefixOfStart == (w.isPrefixOfStart && current == w.floor && |w.bytes| + 1 < |start|)
    requires w'.floor == if w'.isPrefixOfStart then start[|w.bytes| + 1] as int else 0
    ensures TracksStart(start, w')
  {
    var p, i, q := w.bytes, |w.bytes|, w'.bytes;
    if w'.isPrefixOfStart {
      assert q == start[..i + 1];
    } else if w.isPrefixOfStart {
      if i == |start| {
        assert q[..|start|] == start;
      } else if current as byte == start[i] {
        assert q == start;
        assert q[..|start|] == start;
      } else {
        assert q[..i] == start[..i];
        CommonPrefixLenIs(start, q, i);
      }
    } else if IsPrefix(start, p) {
      PrefixExtend(start, p, [current as byte]);
    } else {
      BelowAtExtendRight(start, p, [current as byte]);
    }
  }

  /**
    A turn of the fill loop keeps the window invariant: in particular
    `floor <= ceiling` again, so the next `Int31n` argument is at least 1.
   */
  lemma WindowStep(start: seq<byte>, end: seq<byte>, w: Window, current: int)
    requires WindowInv(start, end, w)
    requires w.floor <= current <= w.ceiling
    requires !Exhausted(end, w, current)
    ensures WindowInv(start, end, Next(start, end, w, current))
  {
    var w' := Next(start, end, w, current);
    StartStep(start, w, current, w');
    var p, i, q := w.bytes, |w.bytes|, w'.bytes;
    if w'.isPrefixOfEnd {
      assert q == end[..i + 1];
    } else if w.isPrefixOfEnd {
      assert q[..i] == end[..i];
      CommonPrefixLenIs(q, end, i);
    } else {
      BelowAtExtendLeft(p, end, [current as byte]);
    }
  }

  /** The turn that stops the fill loop early has written all of `end`, which sorts at or above `start`. */
  lemma EndReached(start: seq<byte>, end: seq<byte>, w: Window, current: int)
    requires WindowInv(start, end, w)
    requires w.floor <= current <= w.ceiling
    requires Exhausted(end, w, current)
    ensures w.bytes + [current as byte] == end
    ensures IsPrefix(start, end) || BelowAt(start, end)
  {
    var q := w.bytes + [current as byte];
    assert q == end;
    // floor < ceiling == current, so the output leaves start here if it has not already.
    StartStep(start, w, current, Window(q, 0, 255, false, false));
  }

  /** The bytes written so far sort at most `end`, and are a prefix of `start` or sort at or above it. */
  lemma WindowOrder(start: seq<byte>, end: seq<byte>, w: Window)
    requires WindowInv(start, end, w)
    ensures LexLe(w.bytes, end)
    ensures IsPrefix(w.bytes, start) || IsPrefix(start, w.bytes) || BelowAt(start, w.bytes)
  {
    LexLeIff(w.bytes, end);
  }

  /**
    From a window satisfying the invariant, the fill loop never panics, and
    its result extends the bytes written so far and has the target length
    unless it stopped early at `end`.
   */
  lemma {:induction false} FillSafe(start: seq<byte>, end: seq<byte>, src: Rand, k: nat, target: nat, w: Window)
    requires WindowInv(start, end, w) && |w.bytes| <= target
    ensures Fill(start, end, src, k, target, w).Returned?
    ensures var r := Fill(start, end, src, k, target, w).bytes;
      IsPrefix(w.bytes, r) && (|r| == target || r == end)
    decreases target - |w.bytes|
  {
    if |w.bytes| < target {
      var current := w.floor + Int31n(src, k, w.ceiling - w.floor + 1);
      if Exhausted(end, w, current) {
        EndReached(start, end, w, current);
      } else {
        var w' := Next(start, end, w, current);
        WindowStep(start, end, w, current);
        assert Fill(start, end, src, k, target, w) == Fill(start, end, src, k + 1, target, w');
        FillSafe(start, end, src, k + 1, target, w');
        PrefixTransitive(w.bytes, w'.bytes, Fill(start, end, src, k + 1, target, w').bytes);
      }
    }
  }

  /**
    From a window satisfying the invariant, the result of the fill loop sorts
    at most `end`, and is a prefix of `start` or sorts at or above it.
   */
  lemma {:induction false} FillOrder(start: seq<byte>, end: seq<byte>, src: Rand, k: nat, target: nat, w: Window)
    requires WindowInv(start, end, w) && |w.bytes| <= target
    ensures Fill(start, end, src, k, target, w).Returned? ==>
      var r := Fill(start, end, src, k, target, w).bytes;
      LexLe(r, end) && (IsPrefix(r, start) || IsPrefix(start, r) || BelowAt(start, r))
    decreases target - |w.bytes|
  {
    if |w.bytes| == target {
      WindowOrder(start, end, w);
    } else {
      var current := w.floor + Int31n(src, k, w.ceiling - w.floor + 1);
      if Exhausted(end, w, current) {
        EndReached(start, end, w, current);
        LexLeReflexive(end);
      } else {
        var w' := Next(start, end, w, current);
        WindowStep(start, end, w, current);
        assert Fill(start, end, src, k, target, w) == Fill(start, end, src, k + 1, target, w');
        FillOrder(start, end, src, k + 1, target, w');
      }
    }
  }

  /**
    The function as a whole, with the target-length loop starting at
    `shortest` (the source starts it at the shorter bound's length).
   */
  function Run(start: seq<byte>, end: seq<byte>, rand: Option<Rand>, shortest: nat): (r: Outcome)
    requires Min(|start|, |end|) <= shortest <= Max(|start|, |end|)
    ensures r.Returned? ==> CommonPrefixLen(start, end) <= |r.bytes| <= Max(|start|, |end|)
  {
    if rand.None? then Panicked(NilRand)
    else
      var i := CommonPrefixLen(start, end);
      var maxLen := Max(|start|, |end|);
      if i < |start| && i < |end| && start[i] > end[i] then Panicked(StartAfterEnd(i))
      else if i == maxLen then Returned(start[..i])
      else if i >= |end| then Panicked(EndIndexOutOfRange(i))
      else
        var floor := if i < |start| then start[i] as int else 0;
        var t := TargetLength(rand.value, 0, shortest, maxLen);
        Fill(start, end, rand.value, t.1, t.0, Window(start[..i], floor, end[i] as int, true, true))
  }

  /**
    When neither bound panics, `Run` is the fill loop from its first window,
    and that loop returns.
   */
  lemma RunFills(start: seq<byte>, end: seq<byte>, src: Rand, shortest: nat)
    requires Min(|start|, |end|) <= shortest <= Max(|start|, |end|)
    requires LexLe(start, end)
    requires CommonPrefixLen(start, end) < |end|
    ensures var i := CommonPrefixLen(start, end);
      var w := Window(start[..i], if i < |start| then start[i] as int else 0, end[i] as int, true, true);
      var t := TargetLength(src, 0, shortest, Max(|start|, |end|));
      Run(start, end, Some(src), shortest) == Fill(start, end, src, t.1, t.0, w) &&
      WindowInv(start, end, w) && |w.bytes| <= t.0 && shortest <= t.0
  {
    var i := CommonPrefixLen(start, end);
    if i < |start| {
      LexLeIff(start, end);
    }
  }

  /**
    When `Run` panics or returns: a nil source panics; otherwise it returns
    exactly when `start <= end`, panics at the first difference when `start`
    sorts above `end` there, and panics on `end[len(end)]` when `end` is a
    proper prefix of `start`.
   */
  lemma RunOutcome(start: seq<byte>, end: seq<byte>, rand: Option<Rand>, shortest: nat)
    requires Min(|start|, |end|) <= shortest <= Max(|start|, |end|)
    ensures rand.None? ==> Run(start, end, rand, shortest) == Panicked(NilRand)
    ensures rand.Some? ==> (Run(start, end, rand, shortest).Returned? <==> LexLe(start, end))
    ensures rand.Some? && BelowAt(end, start) ==>
      Run(start, end, rand, shortest) == Panicked(StartAfterEnd(CommonPrefixLen(start, end)))
    ensures rand.Some? && |end| < |start| && IsPrefix(end, start) ==>
      Run(start, end, rand, shortest) == Panicked(EndIndexOutOfRange(|end|))
    ensures Run(start, end, rand, shortest).Panicked? ==> !Run(start, end, rand, shortest).reason.Int31nArgument?
  {
    NotLexLeIff(start, end);
    if rand.Some? {
      var i := CommonPrefixLen(start, end);
      CommonPrefixLenIs(end, start, i);
      LexLeIff(start, end);
      if IsPrefix(start, end) {
        CommonPrefixLenIs(start, end, |start|);
      }
      if IsPrefix(end, start) {
        CommonPrefixLenIs(start, end, |end|);
      }
      if LexLe(start, end) && i < |end| && i < Max(|start|, |end|) {
        RunFills(start, end, rand.value, shortest);
        var i := CommonPrefixLen(start, end);
        var t := TargetLength(rand.value, 0, shortest, Max(|start|, |end|));
        FillSafe(start, end, rand.value, t.1, t.0,
                 Window(start[..i], if i < |start| then start[i] as int else 0, end[i] as int, true, true));
      }
    }
  }

  /** The properties `RunResult` states, for a `Run` that reaches the fill loop. */
  lemma FilledResult(start: seq<byte>, end: seq<byte>, src: Rand, shortest: nat)
    requires Min(|start|, |end|) <= shortest <= Max(|start|, |end|)
    requires LexLe(start, end)
    requires CommonPrefixLen(start, end) < |end|
    ensures Run(start, end, Some(src), shortest).Returned?
    ensures var r := Run(start, end, Some(src), shortest).bytes;
      IsPrefix(start[..CommonPrefixLen(start, end)], r) &&
      Min(|start|, |end|) <= |r| <= Max(|start|, |end|) &&
      LexLe(r, end) &&
      (IsPrefix(r, start) || IsPrefix(start, r) || BelowAt(start, r))
  {
    var i := CommonPrefixLen(start, end);
    RunFills(start, end, src, shortest);
    var t := TargetLength(src, 0, shortest, Max(|start|, |end|));
    var w := Window(start[..i], if i < |start| then start[i] as int else 0, end[i] as int, true, true);
    FillSafe(start, end, src, t.1, t.0, w);
    FillOrder(start, end, src, t.1, t.0, w);
  }

  /** The lower bound `RunResult` states, for a `Run` that reaches the fill loop. */
  lemma FilledAtLeastStart(start: seq<byte>, end: seq<byte>, src: Rand, shortest: nat)
    requires Min(|start|, |end|) <= shortest <= Max(|start|, |end|)
    requires LexLe(start, end)
    requires CommonPrefixLen(start, end) < |end|
    requires shortest >= |start|
    ensures Run(start, end, Some(src), shortest).Returned? ==>
      LexLe(start, Run(start, end, Some(src), shortest).bytes)
  {
    var i := CommonPrefixLen(start, end);
    RunFills(start, end, src, shortest);
    var t := TargetLength(src, 0, shortest, Max(|start|, |end|));
    var w := Window(start[..i], if i < |start| then start[i] as int else 0, end[i] as int, true, true);
    FillSafe(start, end, src, t.1, t.0, w);
    FillOrder(start, end, src, t.1, t.0, w);
    var r := Fill(start, end, src, t.1, t.0, w).bytes;
    LexLeIff(start, r);
    if r != end && IsPrefix(r, start) {
      assert r == start;
      LexLeReflexive(start);
    }
  }

  /**
    A string `Run` returns begins with the common prefix of the bounds, is
    between their lengths, sorts at most `end`, and sorts at least `start`
    when the target-length loop starts at `len(start)` or above.
   */
  lemma RunResult(start: seq<byte>, end: seq<byte>, rand: Option<Rand>, shortest: nat)
    requires Min(|start|, |end|) <= shortest <= Max(|start|, |end|)
    ensures Run(start, end, rand, shortest).Returned? ==>
      var r := Run(start, end, rand, shortest).bytes;
      IsPrefix(start[..CommonPrefixLen(start, end)], r) &&
      Min(|start|, |end|) <= |r| <= Max(|start|, |end|) &&
      LexLe(r, end) &&
      (shortest >= |start| ==> LexLe(start, r))
  {
    RunOutcome(start, end, rand, shortest);
    if rand.Some? && LexLe(start, end) {
      var i := CommonPrefixLen(start, end);
      if i == Max(|start|, |end|) {
        assert start == start[..i] == end[..i] == end;
        assert Run(start, end, rand, shortest) == Returned(start);
        LexLeReflexive(start);
      } else {
        LexLeIff(start, end);
        FilledResult(start, end, rand.value, shortest);
        if shortest >= |start| {
          FilledAtLeastStart(start, end, rand.value, shortest);
        }
      }
    }
  }

  /**
    For every start of the length loop, a string `Run` returns sorts at least
    `start` or is a proper prefix of `start`.
   */
  lemma RunAtLeastStartOrPrefix(start: seq<byte>, end: seq<byte>, rand: Option<Rand>, shortest: nat)
    requires Min(|start|, |end|) <= shortest <= Max(|start|, |end|)
    ensures Run(start, end, rand, shortest).Returned? ==>
      var r := Run(start, end, rand, shortest).bytes;
      LexLe(start, r) || (|r| < |start| && IsPrefix(r, start))
  {
    RunOutcome(start, end, rand, shortest);
    if rand.Some? && LexLe(start, end) {
      var i := CommonPrefixLen(start, end);
      if i == Max(|start|, |end|) {
        assert start == start[..i] == end[..i] == end;
        assert Run(start, end, rand, shortest) == Returned(start);
        LexLeReflexive(start);
      } else {
        LexLeIff(start, end);
        FilledResult(start, end, rand.value, shortest);
        var r := Run(start, end, rand, shortest).bytes;
        LexLeIff(start, r);
        if IsPrefix(r, start) && |r| >= |start| {
          assert r == start;
          LexLeReflexive(start);
        }
      }
    }
  }

  /** `RandomBytesBetween(start, end, rand)` as written. */
  function Generate(start: seq<byte>, end: seq<byte>, rand: Option<Rand>): (r: Outcome)
    ensures rand.None? ==> r == Panicked(NilRand)
    ensures r.Returned? ==> CommonPrefixLen(start, end) <= |r.bytes| <= Max(|start|, |end|)
  {
    Run(start, end, rand, Min(|start|, |end|))
  }

  /** The imperative model: a buffer of the longer bound's length, filled in place. */
  method RandomBytesBetween(start: seq<byte>, end: seq<byte>, rand: Option<Rand>) returns (res: Outcome)
    ensures res == Generate(start, end, rand)
  {
    if rand.None? {
      return Panicked(NilRand);
    }
    var src := rand.value;

    var minLen, maxLen := |start|, |end|;
    if minLen > maxLen {
      minLen, maxLen := maxLen, minLen;
    }

    var bytes := new byte[maxLen];
    var i := 0;

    // Copy the common bytes of the two bounds.
    while i < minLen
      invariant 0 <= i <= minLen
      invariant start[..i] == end[..i]
      invariant bytes[..i] == start[..i]
    {
      if start[i] == end[i] {
        bytes[i] := start[i];
        assert bytes[..i + 1] == start[..i + 1];
      } else {
        if start[i] > end[i] {
          CommonPrefixLenIs(start, end, i);
          return Panicked(StartAfterEnd(i));
        }
        break;
      }
      i := i + 1;
    }
    CommonPrefixLenIs(start, end, i);

    if i == maxLen {
      assert bytes[..] == bytes[..i];
      return Returned(bytes[..]);
    }

    var floor := 0;
    if i < |start| {
      floor := start[i] as int;
    }
    if i >= |end| {
      return Panicked(EndIndexOutOfRange(i));
    }
    var ceiling := end[i] as int;
    assert minLen == Min(|start|, |end|) && maxLen == Max(|start|, |end|);

    var targetLength, k := DrawTargetLength(src, minLen, maxLen);
    res := FillRemaining(start, end, src, bytes, i, k, targetLength, floor, ceiling);
  }

  /** The target-length loop of the source, drawing from the first call on. */
  method DrawTargetLength(src: Rand, minLen: nat, maxLen: nat) returns (targetLength: nat, k: nat)
    requires minLen <= maxLen
    ensures (targetLength, k) == TargetLength(src, 0, minLen, maxLen)
  {
    var j := minLen;
    targetLength, k := maxLen, 0;
    ghost var target := TargetLength(src, 0, minLen, maxLen);
    while j < maxLen
      invariant minLen <= j <= maxLen
      invariant targetLength == maxLen - (j - minLen)
      invariant TargetLength(src, k, j, maxLen).0 - (j - minLen) == target.0
      invariant TargetLength(src, k, j, maxLen).1 == target.1
    {
      var d := Int31n(src, k, 257);
      k := k + 1;
      if d != 256 {
        break;
      }
      targetLength := targetLength - 1;
      j := j + 1;
    }
  }

  /**
    The fill loop of the source, writing `bytes[from..]` in place from the
    window `floor0`..`ceiling0`, with draws from index `draw0` on, and
    returning a prefix of the buffer.
   */
  method FillRemaining(start: seq<byte>, end: seq<byte>, src: Rand, bytes: array<byte>, from: nat,
                       draw0: nat, targetLength: nat, floor0: int, ceiling0: int) returns (res: Outcome)
    requires from <= targetLength <= bytes.Length
    requires 0 <= floor0 && ceiling0 <= 255
    modifies bytes
    ensures res == Fill(start, end, src, draw0, targetLength, Window(old(bytes[..from]), floor0, ceiling0, true, true))
    ensures res.Returned? ==> |res.bytes| <= bytes.Length && bytes[..|res.bytes|] == res.bytes
  {
    var i, k, floor, ceiling := from, draw0, floor0, ceiling0;
    var isPrefixOfStart, isPrefixOfEnd := true, true;
    ghost var w := Window(bytes[..i], floor, ceiling, true, true);
    ghost var result := Fill(start, end, src, k, targetLength, w);
    while i < targetLength
      invariant i == |w.bytes| <= targetLength
      invariant bytes[..i] == w.bytes
      invariant w == Window(w.bytes, floor, ceiling, isPrefixOfStart, isPrefixOfEnd)
      invariant Bounded(w)
      invariant Fill(start, end, src, k, targetLength, w) == result
      decreases targetLength - i
    {
      var n := ceiling - floor + 1;
      if n <= 0 {
        return Panicked(Int31nArgument(n));
      }
      var current := floor + Int31n(src, k, n);
      k := k + 1;
      bytes[i] := current as byte;
      assert bytes[..i + 1] == w.bytes + [current as byte];

      if isPrefixOfStart && current == floor && i + 1 < |start| {
        floor := start[i + 1] as int;
      } else {
        floor := 0;
        isPrefixOfStart := false;
      }

      if isPrefixOfEnd && current == ceiling {
        if i + 1 < |end| {
          ceiling := end[i + 1] as int;
        } else {
          return Returned(bytes[..i + 1]);
        }
      } else {
        ceiling := 255;
        isPrefixOfEnd := false;
      }
      w := Next(start, end, w, current);
      i := i + 1;
    }
    return Returned(bytes[..targetLength]);
  }

  /**
    `RandomBytesBetween` panics on a nil source; otherwise it returns exactly
    when `start <= end`, and its only other panics are the one at the first
    difference when `start` sorts above `end` and the index panic when `end`
    is a proper prefix of `start`. `Int31n` is never called with a
    non-positive argument.
   */
  lemma GenerateOutcome(start: seq<byte>, end: seq<byte>, rand: Option<Rand>)
    ensures rand.None? ==> Generate(start, end, rand) == Panicked(NilRand)
    ensures rand.Some? ==> (Generate(start, end, rand).Returned? <==> LexLe(start, end))
    ensures rand.Some? && BelowAt(end, start) ==>
      Generate(start, end, rand) == Panicked(StartAfterEnd(CommonPrefixLen(start, end)))
    ensures rand.Some? && |end| < |start| && IsPrefix(end, start) ==>
      Generate(start, end, rand) == Panicked(EndIndexOutOfRange(|end|))
    ensures Generate(start, end, rand).Panicked? ==> !Generate(start, end, rand).reason.Int31nArgument?
  {
    RunOutcome(start, end, rand, Min(|start|, |end|));
  }

  /** Equal bounds return that same string, whatever the source. */
  lemma EqualBoundsReturnStart(s: seq<byte>, src: Rand)
    ensures Generate(s, s, Some(src)) == Returned(s)
  {
    CommonPrefixLenIs(s, s, |s|);
  }

  /**
    A returned string begins with the common prefix of the bounds, has a length
    between theirs, and sorts at most `end`.
   */
  lemma GenerateResult(start: seq<byte>, end: seq<byte>, rand: Option<Rand>)
    ensures Generate(start, end, rand).Returned? ==>
      var r := Generate(start, end, rand).bytes;
      IsPrefix(start[..CommonPrefixLen(start, end)], r) &&
      Min(|start|, |end|) <= |r| <= Max(|start|, |end|) &&
      LexLe(r, end)
  {
    RunResult(start, end, rand, Min(|start|, |end|));
  }

  /** When `start` is not longer than `end`, a returned string sorts at least `start`. */
  lemma ResultAtLeastStart(start: seq<byte>, end: seq<byte>, rand: Option<Rand>)
    requires |start| <= |end|
    ensures Generate(start, end, rand).Returned? ==> LexLe(start, Generate(start, end, rand).bytes)
  {
    RunResult(start, end, rand, Min(|start|, |end|));
  }

  /**
    For all bounds, a returned string sorts at least `start` or is a proper
    prefix of `start`; the second case happens only when `start` is the
    longer bound.
   */
  lemma ResultAtLeastStartOrPrefix(start: seq<byte>, end: seq<byte>, rand: Option<Rand>)
    ensures Generate(start, end, rand).Returned? ==>
      var r := Generate(start, end, rand).bytes;
      LexLe(start, r) || (|end| < |start| && |r| < |start| && IsPrefix(r, start))
  {
    RunAtLeastStartOrPrefix(start, end, rand, Min(|start|, |end|));
    RunResult(start, end, rand, Min(|start|, |end|));
  }

  /**
    With a `start` longer than `end` the promise `start <= result` fails:
    for `start = 00 05`, `end = 01` and a source whose first `Int31n(257)` is
    256 and whose next `Int31n(2)` is 0, the result is `00`, a proper prefix
    of `start`, which sorts below it.
   */
  lemma BelowStartWhenStartLonger()
    ensures var src := Rand(k => if k == 0 then 256 else 0);
      Generate([0, 5], [1], Some(src)) == Returned([0]) && !LexLe([0, 5], [0])
  {
    var start, end: seq<byte> := [0, 5], [1];
    var src := Rand(k => if k == 0 then 256 else 0);
    CommonPrefixLenIs(start, end, 0);
    assert TargetLength(src, 1, 2, 2) == (2, 1);
    assert TargetLength(src, 0, 1, 2) == (1, 1);
    var w := Window([], 0, 1, true, true);
    assert start[..0] == [];
    assert Int31n(src, 1, 2) == 0;
    var w' := Next(start, end, w, 0);
    assert w' == Window([0], 5, 255, true, false);
    assert Fill(start, end, src, 2, 1, w') == Returned([0]);
    assert Fill(start, end, src, 1, 1, w) == Returned([0]);
    assert !LexLe([5], []);
  }

  /**
    `RandomBytesBetween` with the target-length loop starting at `len(start)`
    when that is the greater length, so that no target is shorter than `start`.
   */
  function GenerateCorrected(start: seq<byte>, end: seq<byte>, rand: Option<Rand>): (r: Outcome)
    ensures |start| <= |end| ==> r == Generate(start, end, rand)
  {
    Run(start, end, rand, |start|)
  }

  /**
    The corrected function keeps the promise for all bounds: it returns
    exactly when `start <= end`, and then `start <= result <= end`.
   */
  lemma CorrectedBetweenBounds(start: seq<byte>, end: seq<byte>, rand: Option<Rand>)
    ensures rand.Some? ==> (GenerateCorrected(start, end, rand).Returned? <==> LexLe(start, end))
    ensures GenerateCorrected(start, end, rand).Returned? ==>
      var r := GenerateCorrected(start, end, rand).bytes;
      LexLe(start, r) && LexLe(r, end)
  {
    RunOutcome(start, end, rand, |start|);
    RunResult(start, end, rand, |start|);
  }
}
