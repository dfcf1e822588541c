# RandomBytesBetween, modelled and verified in Dafny

`RandomBytesBetween(start, end, rand)` in the protocol's `lib` package returns a
random byte string meant to sort between `start` and `end` under
`bytes.Compare`. It works in four phases:

1. It copies the common prefix of the two bounds into a buffer as long as the
   longer bound. It panics at the first differing position if `start`'s byte
   there is the greater.
2. It sets up a window `floor..ceiling` from the first differing bytes.
3. It draws a target length: it starts at the longer bound's length and drops
   one byte for each leading `Int31n(257)` draw of 256.
4. It fills the rest of the buffer with draws from the window. After each byte
   it narrows or widens the window, and it stops early when the output has
   become equal to `end`.

The project has two modules:

- `ByteOrder` (`byte_order.dfy`) defines bytes, prefixes and the common-prefix
  length. `LexLe` is the order `bytes.Compare(a, b) <= 0`, and `LexLeIff`
  connects it to "prefix, or smaller at the first difference".
- `Random` (`random.dfy`) holds the function itself.
  - `RandomBytesBetween` is an imperative method with the same three loops as
    the Go code. It fills an `array<byte>` in place.
  - It is proved equal to the functional specification `Generate`.
    `Generate` is built from `TargetLength` (the length loop) and `Fill` (the
    fill loop, stepping a `Window` state).
  - The loop helpers `DrawTargetLength` and `FillRemaining` are proved equal to
    `TargetLength` and `Fill`.
  - The properties of the function are lemmas about `Generate`.

The random source is an oracle, `Rand(draw)`. Its k-th `Int31n(n)` call
answers `draw(k) % n`, so a lemma quantified over all `Rand` values covers
every sequence of answers a `*rand.Rand` can give. A nil `*rand.Rand` is
`None`.

Every panic the Go code can reach is an explicit `Panicked(reason)` outcome:

- the nil-source panic;
- the "greater than end" panic;
- the index panic on `end[i]` when `end` is a proper prefix of `start`;
- the panic of `rand.Int31n` on a non-positive argument.

`Fill` and `FillRemaining` carry the `Int31n` check exactly as Go does. The
window lemmas then prove that `floor <= ceiling` always holds. So the
`Int31n` argument is always at least 1 and this panic never happens
(`FillSafe`, `GenerateOutcome`).

The doc comment at protocol/lib/random.go:50 says the function panics when
`start` compares *less* than `end`. The code panics when `start` is *greater*
at the first difference (line 71). The model follows the code.

## Model

| member | source | states |
|---|---|---|
| `ByteOrder.CommonPrefixLen` | protocol/lib/random.go:66-76 | the position at which the copy loop stops: both bounds agree before it, and it is the end of one bound or a position where they differ |
| `ByteOrder.CommonPrefixLenIs` | protocol/lib/random.go:66-76 | any position with those three properties is the common-prefix length |
| `ByteOrder.LexLe` | protocol/lib/random.go:48 | the order "compares lexicographically" refers to, `bytes.Compare(a, b) <= 0`: byte by byte, a proper prefix first; `LexLeIff` and `NotLexLeIff` characterise it |
| `ByteOrder.LexLeIff` | protocol/lib/random.go:48 | `a` sorts at or below `b` exactly when `a` is a prefix of `b` or is smaller at their first difference |
| `ByteOrder.NotLexLeIff` | protocol/lib/random.go:67-90 | `start` sorts above `end` exactly when `end` is smaller at the first difference (the panic at line 72) or `end` is a proper prefix of `start` (the `end[i]` index panic at line 90) |
| `Random.Int31n` | protocol/lib/random.go:102 | a call `Int31n(n)` with `n > 0` answers a value in `[0, n)` |
| `Random.AnyAnswerPossible` | protocol/lib/random.go:102 | every answer `v` in `[0, n)` is what some source gives for a call, so proofs over all `Rand` values cover every sequence of draws |
| `Random.TargetLength` | protocol/lib/random.go:94-97 | the target length lies between the loop's start `j` and the longer length, and the draw index only advances |
| `Random.DrawTargetLength` | protocol/lib/random.go:94-97 | the imperative length loop, including its short-circuit draw and early exit, computes exactly `TargetLength` from the first draw |
| `Random.Next` | protocol/lib/random.go:102-125 | one turn of the fill loop that does not return early: the new window still holds bytes of a bound, 0 or 255, and neither prefix flag is ever switched back on |
| `Random.Fill` | protocol/lib/random.go:99-128 | the fill loop as written, including the `Int31n` panic on a window with `ceiling < floor` and the early return at `end`: a returned string is at least as long as the bytes already written and at most the target length |
| `Random.FillRemaining` | protocol/lib/random.go:99-128 | the imperative fill loop, writing the array in place, returns exactly what `Fill` returns, including the early return when the output equals `end` and the `Int31n` panic path; the returned string is the prefix `bytes[:n]` of the array it filled |
| `Random.RandomBytesBetween` | protocol/lib/random.go:52-129 | the whole imperative function returns exactly `Generate(start, end, rand)`, panics included |
| `Random.StartStep` | protocol/lib/random.go:105-111 | the floor update keeps the start side of the window: while the output is a prefix of `start`, `floor` is `start`'s next byte; afterwards every extension of the output sorts at or above `start` |
| `Random.WindowStep` | protocol/lib/random.go:101-125 | one turn of the fill loop keeps the window invariant, in particular `0 <= floor <= ceiling <= 255`, so the next `Int31n` argument is at least 1 |
| `Random.EndReached` | protocol/lib/random.go:114-121 | the turn that returns early has written exactly `end`, and `end` sorts at or above `start` |
| `Random.WindowOrder` | protocol/lib/random.go:128 | the bytes written under the invariant sort at most `end`, and are a prefix of `start` or sort at or above it |
| `Random.FillSafe` | protocol/lib/random.go:99-128 | from any window satisfying the invariant, the fill loop never panics; its result extends the bytes already written, and has the target length unless it stopped early at `end` |
| `Random.FillOrder` | protocol/lib/random.go:99-128 | the fill loop's result sorts at most `end`, and is a prefix of `start` or sorts at or above it |
| `Random.Run` | protocol/lib/random.go:52-129 | the whole function, with the length loop starting at a given `shortest`: a returned string is at least as long as the common prefix and at most as long as the longer bound |
| `Random.RunFills` | protocol/lib/random.go:83-90 | when no bound check panics, the first window (the first differing bytes, or 0 past `start`'s end) satisfies the fill loop's invariant |
| `Random.RunOutcome` | protocol/lib/random.go:52-97 | for every start of the length loop: a nil source panics; otherwise the function returns exactly when `start <= end`; each of the other two panics happens in its case, at the position Go reports; `Int31n` is never called with a non-positive argument |
| `Random.FilledResult` | protocol/lib/random.go:83-128 | a run that reaches the fill loop returns a string that begins with the common prefix, has a length between the two bounds' lengths, sorts at most `end`, and is a prefix of `start` or sorts at or above it |
| `Random.FilledAtLeastStart` | protocol/lib/random.go:83-128 | when the length loop starts at `len(start)` or above, that string also sorts at least `start` |
| `Random.RunResult` | protocol/lib/random.go:52-129 | every returned string has the common prefix, a length between the bounds' lengths, sorts at most `end`, and sorts at least `start` when the length loop starts at `len(start)` or above |
| `Random.RunAtLeastStartOrPrefix` | protocol/lib/random.go:52-129 | for every start of the length loop, a returned string sorts at least `start` or is a proper prefix of `start` |
| `Random.Generate` | protocol/lib/random.go:52-129 | `RandomBytesBetween` as written (length loop from `min(len)`): a nil source panics, and a returned string is at least as long as the common prefix and at most as long as the longer bound |
| `Random.GenerateOutcome` | protocol/lib/random.go:52-90 | `RandomBytesBetween` panics on a nil source; otherwise it returns exactly when `start <= end`; its only other panics are "greater than end" at the first difference and the `end[i]` index panic |
| `Random.EqualBoundsReturnStart` | protocol/lib/random.go:78-81 | equal bounds return that same string, whatever the source |
| `Random.GenerateResult` | protocol/lib/random.go:48-129 | a returned string begins with the common prefix of the bounds, has a length between `min(len)` and `max(len)`, and sorts at most `end` |
| `Random.ResultAtLeastStart` | protocol/lib/random.go:48-129 | when `len(start) <= len(end)`, a returned string sorts at least `start` |
| `Random.ResultAtLeastStartOrPrefix` | protocol/lib/random.go:48-129 | for all bounds, a returned string sorts at least `start`, or `start` is the longer bound and the string is a proper prefix of `start` |
| `Random.BelowStartWhenStartLonger` | protocol/lib/random.go:94-97 | for `start = 00 05`, `end = 01` and draws 256 then 0, the function returns `00`, which sorts below `start` |
| `Random.GenerateCorrected` | protocol/lib/random.go:94-97 | the length loop started at `len(start)`; it agrees with `Generate` whenever `len(start) <= len(end)`, so it differs only where the finding applies |
| `Random.CorrectedBetweenBounds` | protocol/lib/random.go:48 | with the length loop started at `len(start)`, the function returns exactly when `start <= end`, and then `start <= result <= end` |

## Left out

- `WeightedRandomSample` and `RandomBool` in the same file are not part of this model.
- The claim at line 92 that every byte string gets an equal probability is not modelled. The oracle source fixes the answers and has no distribution.
- The internals of `math/rand` are not modelled: `Int31n(n)` is any value in `[0, n)`, supplied by the oracle.
- Go's panic messages are left out. A panic is modelled only by its reason and the position it reports.
- Nil slices are left out. Go treats them as empty, and a Dafny sequence is never nil.
- The returned slice aliases the buffer of the longer bound's length. The model returns the prefix `bytes[..n]` as a value.
- `int32` arithmetic on `floor`, `ceiling` and `current` is modelled with unbounded integers. Each of them holds a bound's byte, 0 or 255, so no `int32` overflow can occur.
- `byte(current)` is modelled as `current as byte`. Once the `Int31n` argument is at least 1, `current` lies in `floor..ceiling`, within `0..255`.
- Random.ResultAtLeastStart: requires `len(start) <= len(end)`. This is weaker than the doc comment's promise of a result in `[start, end]`, because the code breaks that promise when `start` is the longer bound (see Findings). `Random.ResultAtLeastStartOrPrefix` states what holds for all bounds.

## Findings

| source | as written | input that shows it | evidently intended | confidence | as-written member | corrected member |
|---|---|---|---|---|---|---|
| protocol/lib/random.go:94-97 | the length loop starts at `j := minLen`, so the target can fall below `len(start)` when `start` is the longer bound; the fill loop then stops inside `start` and returns a proper prefix of it | `start = 00 05`, `end = 01`, `Int31n(257)` answers 256, then `Int31n(2)` answers 0: the result is `00`, which sorts below `start` | a result in `[start, end]` (line 48); starting the length loop at `len(start)` when `start` is longer keeps every target at or above `len(start)` | not executed | `Random.BelowStartWhenStartLonger` | `Random.CorrectedBetweenBounds` |
