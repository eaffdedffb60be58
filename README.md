# gravi-dog core, modelled in Dafny

gravi-dog is a 2D platformer built on the `miweinst` game engine. Its world steps physics
entities at a fixed timestep. Each step checks every pair of entities for collisions,
separates colliding bodies along their minimum translation vectors (MTVs, found with the
separating-axis test) and integrates forces and impulses with a symplectic Euler step.
Curved surfaces are cubic Bezier curves, whose nearest-point polynomial uses binomial
coefficients. The level menu records the stars collected in each level, keeps the best
score of every level in a save file, and opens levels in order.

The game ships with four utility classes of the Parallel Java 2 library, which this model
also covers:

- `Range` and `LongRange`: integer ranges that split into balanced sub-ranges.
- `Random`: a counter-based hash generator.
- `Instance`: a parser for constructor expressions such as `Foo(1,Bar(2))`.

The model has one module per source class, or per group of classes:

| module | file | models |
|---|---|---|
| `IntRanges` | `range.dfy` | `Range` |
| `LongRanges` | `long_range.dfy` | `LongRange` |
| `Partition` | `partition.dfy` | the balanced split shared by both range classes |
| `Prng` | `random.dfy` | `Random`, a class over its `seed` and `counter` |
| `Instance` | `instance.dfy` | `Instance`, its scanner and its int conversion of arguments |
| `SeparatingAxis` | `separating_axis.dfy` | `SeparatingAxis` |
| `World` | `game_world.dfy` | `GameWorld`, a class over its entity list and accumulator |
| `Physics` | `physics_entity.dfy` | `PhysicsEntity`, a class whose methods update its fields |
| `Bezier` | `bezier.dfy` | the integer part of `CubicBezierCurve` |
| `LevelMenu` | `level_menu.dfy` | `LevelMenuScreen`, `LevelBox` and the save format of `FileIO` |
| `JavaInt` | `java_int.dfy` | Java `int`/`long` wrap-around, division that truncates, `Integer.parseInt` and `toString` |
| `Vectors`, `Wrappers` | `vectors.dfy`, `wrappers.dfy` | `Vec2f` arithmetic over reals, `Option` and `Result` |

Java's `int` and `long` arithmetic is written out explicitly:

- `Wrap32` and `Wrap64` give two's-complement wrap-around.
- `TruncDiv` gives division that truncates toward zero.

Entities that are identified only by reference (the world's entity list) are opaque
`EntityId` values. Floats are modelled as `real`.

## Model

| member | source | states |
|---|---|---|
| IntRanges.EmptyRange | src/support/pj2/lib/edu/rit/util/Range.java:77-81 | The default range `0..-1` is empty: it has length 0 and contains no value. |
| IntRanges.IsEmpty | src/support/pj2/lib/edu/rit/util/Range.java:142-145 | A range is empty exactly when its exact length is 0. |
| IntRanges.Length | src/support/pj2/lib/edu/rit/util/Range.java:161-169 | `length()` is never negative. It is the exact length whenever that fits in an `int`, and it throws `IllegalStateException` only for a length above `Integer.MAX_VALUE`. |
| IntRanges.Contains | src/support/pj2/lib/edu/rit/util/Range.java:191-195 | `contains(value)` holds exactly when `value` is one of the integers `lb..ub`. |
| IntRanges.ContainsRange | src/support/pj2/lib/edu/rit/util/Range.java:207-211 | When `contains(range)` holds, every member of the other range is a member of this one. |
| IntRanges.Equals | src/support/pj2/lib/edu/rit/util/Range.java:332-344 | Equal ranges have the same length. |
| IntRanges.BigLength | src/support/pj2/lib/edu/rit/util/Range.java:176-179 | The exact length lies between 0 and 2^32. |
| IntRanges.BigLengthCountsMembers | src/support/pj2/lib/edu/rit/util/Range.java:176-179 | `bigLength` is the number of `int` values the range contains. |
| IntRanges.EmptyIffNoMembers | src/support/pj2/lib/edu/rit/util/Range.java:142-145 | `isEmpty` holds exactly when no value is contained. |
| IntRanges.LengthMatchesBigLength | src/support/pj2/lib/edu/rit/util/Range.java:161-169 | `length` equals `bigLength` when it fits in an `int`. Between 2^31 and 2^32 - 1 it throws `IllegalStateException`. For the full `int` range it wraps to 0. |
| IntRanges.ContainsRangeIsInclusion | src/support/pj2/lib/edu/rit/util/Range.java:207-211 | For a non-empty argument, `contains(Range)` holds exactly when every member of the other range is a member of this one. An empty argument has no members, but it is contained only when its bounds are: `1..1` does not contain the empty range `0..-1`. |
| IntRanges.EqualsIsSameMembers | src/support/pj2/lib/edu/rit/util/Range.java:332-344 | `equals` holds exactly when the two ranges have the same members, so all empty ranges are equal. |
| IntRanges.EqualsIsEquivalence | src/support/pj2/lib/edu/rit/util/Range.java:332-344 | `equals` is reflexive, symmetric and transitive. |
| IntRanges.Subrange | src/support/pj2/lib/edu/rit/util/Range.java:234-265 | `IllegalArgumentException` is thrown exactly when `size < 1` or `rank` is outside `0 .. size-1`. |
| IntRanges.Subranges | src/support/pj2/lib/edu/rit/util/Range.java:285-321 | The two loops return `size` pieces, and piece `k` is `subrange(size, k)`. `IllegalArgumentException` is thrown exactly when `size < 1`. |
| IntRanges.SubrangeIsExactPiece | src/support/pj2/lib/edu/rit/util/Range.java:251-264 | When no bound overflows, piece `rank` is exactly `PieceLb .. PieceLb + PieceLen - 1`. |
| IntRanges.PieceBounds | src/support/pj2/lib/edu/rit/util/Range.java:247-264 | Piece `rank` starts at `PieceLb` and has `PieceLen` elements. |
| IntRanges.SubrangesTile | src/support/pj2/lib/edu/rit/util/Range.java:251-264 | The first piece starts at `lb`. Each later piece starts right after the previous one ends. The last piece ends at `ub`. |
| IntRanges.SubrangeLengthsBalanced | src/support/pj2/lib/edu/rit/util/Range.java:251-264 | Piece `j` has `len / size` elements, plus one if `j < len % size`. Any two pieces differ in length by at most one. |
| IntRanges.PiecesLengthIsSumLen | src/support/pj2/lib/edu/rit/util/Range.java:251-264 | The lengths of the first `n` pieces add up to the partition sum `SumLen`. |
| IntRanges.SubrangesLengthSum | src/support/pj2/lib/edu/rit/util/Range.java:213-220 | The lengths of all the pieces add up to the length of the range. |
| IntRanges.PiecesAscend | src/support/pj2/lib/edu/rit/util/Range.java:251-264 | A piece of lower rank ends before any piece of higher rank starts. |
| IntRanges.SubrangesPartition | src/support/pj2/lib/edu/rit/util/Range.java:234-265 | Every member of the range lies in some piece, and never in two. |
| IntRanges.SubrangeWrapsAtMaxValue | src/support/pj2/lib/edu/rit/util/Range.java:251-264 | As written, `Range(MAX_VALUE, MAX_VALUE).subrange(2, 1)` is the whole `int` range, and the piece lengths add up to 2^32 + 1. |
| IntRanges.SubrangeCorrected | src/support/pj2/lib/edu/rit/util/Range.java:234-265 | The corrected `subrange` has the same error condition. |
| IntRanges.SubrangeCorrectedIsExact | src/support/pj2/lib/edu/rit/util/Range.java:251-264 | Every corrected piece holds exactly `PieceLb .. PieceLb + PieceLen - 1`, with no condition on the bounds. |
| IntRanges.SubrangeCorrectedAgrees | src/support/pj2/lib/edu/rit/util/Range.java:234-265 | The corrected piece equals the source's piece wherever no bound overflows. They differ at the overflow. |
| LongRanges.EmptyRange | src/support/pj2/lib/edu/rit/util/LongRange.java:80-84 | The default range `0..-1` is empty: it has length 0 and contains no value. |
| LongRanges.IsEmpty | src/support/pj2/lib/edu/rit/util/LongRange.java:146-149 | A range is empty exactly when its exact length is 0. |
| LongRanges.Length | src/support/pj2/lib/edu/rit/util/LongRange.java:165-173 | `length()` is never negative. It is the exact length whenever that fits in a `long`, and it throws only for a length above `Long.MAX_VALUE`. |
| LongRanges.Contains | src/support/pj2/lib/edu/rit/util/LongRange.java:198-202 | `contains(value)` holds exactly when `value` is one of the integers `lb..ub`. |
| LongRanges.ContainsRange | src/support/pj2/lib/edu/rit/util/LongRange.java:214-218 | When `contains(range)` holds, every member of the other range is a member of this one. |
| LongRanges.Equals | src/support/pj2/lib/edu/rit/util/LongRange.java:346-358 | Equal ranges have the same length. |
| LongRanges.BigLength | src/support/pj2/lib/edu/rit/util/LongRange.java:180-186 | The exact length lies between 0 and 2^64. |
| LongRanges.BigLengthCountsMembers | src/support/pj2/lib/edu/rit/util/LongRange.java:180-186 | `bigLength` is the number of `long` values the range contains. |
| LongRanges.EmptyIffNoMembers | src/support/pj2/lib/edu/rit/util/LongRange.java:146-149 | `isEmpty` holds exactly when no value is contained. |
| LongRanges.LengthMatchesBigLength | src/support/pj2/lib/edu/rit/util/LongRange.java:165-173 | `length` equals `bigLength` when it fits in a `long`. Between 2^63 and 2^64 - 1 it throws. For the full `long` range it wraps to 0. |
| LongRanges.ContainsRangeIsInclusion | src/support/pj2/lib/edu/rit/util/LongRange.java:214-218 | For a non-empty argument, `contains(LongRange)` is inclusion of member sets. An empty argument is contained only when its bounds are, so `1..1` does not contain `0..-1`. |
| LongRanges.EqualsIsSameMembers | src/support/pj2/lib/edu/rit/util/LongRange.java:346-358 | `equals` holds exactly when the two ranges have the same members. |
| LongRanges.EqualsIsEquivalence | src/support/pj2/lib/edu/rit/util/LongRange.java:346-358 | `equals` is an equivalence relation. |
| LongRanges.Subrange | src/support/pj2/lib/edu/rit/util/LongRange.java:241-277 | `IllegalArgumentException` is thrown exactly when `size < 1` or `rank` is outside `0 .. size-1`. |
| LongRanges.Subranges | src/support/pj2/lib/edu/rit/util/LongRange.java:297-334 | The loops return `size` pieces, and piece `k` is `subrange(size, k)`. It throws exactly when `size < 1`. |
| LongRanges.SubrangeIsExactPiece | src/support/pj2/lib/edu/rit/util/LongRange.java:257-276 | When no bound overflows, piece `rank` is exactly `PieceLb .. PieceLb + PieceLen - 1`. |
| LongRanges.PieceBounds | src/support/pj2/lib/edu/rit/util/LongRange.java:257-276 | Piece `rank` starts at `PieceLb` and has `PieceLen` elements. |
| LongRanges.SubrangesTile | src/support/pj2/lib/edu/rit/util/LongRange.java:257-276 | The pieces are consecutive and together run from `lb` to `ub`. |
| LongRanges.SubrangeLengthsBalanced | src/support/pj2/lib/edu/rit/util/LongRange.java:257-276 | Pieces have `len / size` or `len / size + 1` elements, and the longer ones come first. |
| LongRanges.PiecesLengthIsSumLen | src/support/pj2/lib/edu/rit/util/LongRange.java:257-276 | The lengths of the first `n` pieces add up to `SumLen`. |
| LongRanges.SubrangesLengthSum | src/support/pj2/lib/edu/rit/util/LongRange.java:221-226 | The lengths of all the pieces add up to the length of the range. |
| LongRanges.PiecesAscend | src/support/pj2/lib/edu/rit/util/LongRange.java:257-276 | A piece of lower rank ends before any piece of higher rank starts. |
| LongRanges.SubrangesPartition | src/support/pj2/lib/edu/rit/util/LongRange.java:241-277 | Every member of the range lies in exactly one piece. |
| LongRanges.SubrangeWrapsAtMaxValue | src/support/pj2/lib/edu/rit/util/LongRange.java:257-276 | As written, `LongRange(MAX_VALUE, MAX_VALUE).subrange(2, 1)` is the whole `long` range. |
| LongRanges.SubrangeCorrected | src/support/pj2/lib/edu/rit/util/LongRange.java:241-277 | The corrected `subrange` has the same error condition. |
| LongRanges.SubrangeCorrectedIsExact | src/support/pj2/lib/edu/rit/util/LongRange.java:257-276 | Every corrected piece is exact, whatever its bounds. |
| LongRanges.SubrangeCorrectedAgrees | src/support/pj2/lib/edu/rit/util/LongRange.java:241-277 | The corrected and source pieces are equal where no bound overflows, and differ at the overflow. |
| Prng.Random.constructor | src/support/pj2/lib/edu/rit/util/Random.java:92-96 | The seed is the hash of the given seed, and the counter is 0. |
| Prng.Random.SetSeed | src/support/pj2/lib/edu/rit/util/Random.java:105-110 | The seed is re-hashed and the counter restarts at 0. |
| Prng.Random.Skip | src/support/pj2/lib/edu/rit/util/Random.java:115-118 | The counter advances by one, wrapping as a `long`. |
| Prng.Random.SkipBy | src/support/pj2/lib/edu/rit/util/Random.java:126-131 | The counter advances by `n` when `n` is non-negative. Otherwise nothing changes. |
| Prng.Random.SkipTo | src/support/pj2/lib/edu/rit/util/Random.java:143-148 | The counter becomes `n` when `n` is non-negative. Otherwise nothing changes. |
| Prng.Random.Next | src/support/pj2/lib/edu/rit/util/Random.java:342-346 | The counter advances by one, and the value is the hash of the seed plus the new counter. |
| Prng.Random.NextBoolean | src/support/pj2/lib/edu/rit/util/Random.java:157-161 | Draws one value; the result is whether it is non-negative. |
| Prng.Random.NextByte | src/support/pj2/lib/edu/rit/util/Random.java:170-173 | Draws one value; the result is its low byte as a signed `byte`. |
| Prng.Random.NextUnsignedByte | src/support/pj2/lib/edu/rit/util/Random.java:183-186 | Draws one value; the result is its low byte, from 0 to 255. |
| Prng.Random.NextCharacter | src/support/pj2/lib/edu/rit/util/Random.java:196-199 | Draws one value; the result is its low 16 bits as an unsigned `char`. |
| Prng.Random.NextShort | src/support/pj2/lib/edu/rit/util/Random.java:208-211 | Draws one value; the result is its low 16 bits, signed. |
| Prng.Random.NextUnsignedShort | src/support/pj2/lib/edu/rit/util/Random.java:221-224 | Draws one value; the result is its low 16 bits, unsigned. |
| Prng.Random.NextInteger | src/support/pj2/lib/edu/rit/util/Random.java:234-237 | Draws one value; the result is its low 32 bits as an `int`. |
| Prng.Random.NextLong | src/support/pj2/lib/edu/rit/util/Random.java:268-271 | Draws one value; the result is the whole 64-bit value. |
| Prng.Random.NextInt | src/support/pj2/lib/edu/rit/util/Random.java:251-258 | `IllegalArgumentException` is thrown exactly when `n <= 0`, and then the counter does not move. Otherwise one value is drawn. |
| Prng.Hash | src/support/pj2/lib/edu/rit/util/Random.java:351-363 | The eight statements of `hash` in order, over 64-bit words, with `>>>` dropping low bits and `<<` dropping bits past bit 63. It has no contract of its own; the draws of `Random` are stated through it. |
| Prng.Output | src/support/pj2/lib/edu/rit/util/Random.java:342-346 | Output `n` of seed `s` is the hash of the hashed seed plus `n`. The stream repeats with period 2^64, as the `long` counter wraps. |
| Prng.BooleanOf | src/support/pj2/lib/edu/rit/util/Random.java:157-161 | `nextBoolean()` is true exactly when the top bit of the 64-bit value is clear. |
| Prng.ByteOf | src/support/pj2/lib/edu/rit/util/Random.java:170-173 | The `(byte)` cast lies in -128..127 and agrees with its input modulo 256. |
| Prng.UnsignedByteOf | src/support/pj2/lib/edu/rit/util/Random.java:183-186 | `& 0xFF` lies in 0..255 and agrees with its input modulo 256. |
| Prng.ShortOf | src/support/pj2/lib/edu/rit/util/Random.java:208-211 | The `(short)` cast lies in -32768..32767 and agrees with its input modulo 65536. |
| Prng.UnsignedShortOf | src/support/pj2/lib/edu/rit/util/Random.java:221-224 | `& 0xFFFF` lies in 0..65535 and agrees with its input modulo 65536. |
| Prng.IntegerOf | src/support/pj2/lib/edu/rit/util/Random.java:234-237 | The `(int)` cast keeps every value that already fits. |
| Prng.UnsignedByteAgrees | src/support/pj2/lib/edu/rit/util/Random.java:170-186 | The unsigned byte is the signed byte plus 256 when that is negative. |
| Prng.UnsignedShortAgrees | src/support/pj2/lib/edu/rit/util/Random.java:208-224 | The unsigned short is the signed short plus 65536 when that is negative. |
| Prng.SkipThenNext | src/support/pj2/lib/edu/rit/util/Random.java:126-131 | After `skip(k)` on a fresh generator, the next value is output number `k + 1`. |
| Prng.FirstOutputs | src/support/pj2/lib/edu/rit/util/Random.java:342-346 | The first `n` draws from seed `s` are outputs 1 to `n`. |
| Prng.DrawThenSkipTo | src/support/pj2/lib/edu/rit/util/Random.java:143-148 | After `skipTo(k)` the next value is output `k + 1`, whatever was drawn before. |
| Prng.SameSeedSameValues | src/support/pj2/lib/edu/rit/util/Random.java:105-110 | After `setSeed` with the same seed, two generators draw the same sequence, whatever their earlier history. |
| Instance.Step | src/support/pj2/lib/edu/rit/util/Instance.java:124-179 | One character: an error is reported at that character's index, and always after the closing `)`. A step keeps the argument list or appends the pending token. Once the class name is closed by `(`, it is non-empty. |
| Instance.Scan | src/support/pj2/lib/edu/rit/util/Instance.java:119-181 | A syntax error is reported at the index of one of the characters scanned. A non-empty class name stays non-empty. |
| Instance.Parse | src/support/pj2/lib/edu/rit/util/Instance.java:110-184 | An error index lies between -1 and the last index, and is -1 only for the empty string. A successful parse has a non-empty class name. |
| Instance.Render | src/support/pj2/lib/edu/rit/util/Instance.java:110-184 | The text the scanner accepts, `name(a1,...,an)`: the name, then `(`, the arguments joined by commas, and `)`. |
| Instance.ParseConstructorExpression | src/support/pj2/lib/edu/rit/util/Instance.java:110-184 | The character loop computes exactly the scanner function `Parse`, including the index where it reports a syntax error. |
| Instance.ArgumentsAsInts | src/support/pj2/lib/edu/rit/util/Instance.java:186-200 | Entry `k` is the `int` value of argument `k`, when it has one. `allAreInts` holds exactly when every argument converts. |
| Instance.ScanPlainName | src/support/pj2/lib/edu/rit/util/Instance.java:124-139 | In state 0, a name without `(`, `)` or `,` is appended to the token. |
| Instance.ScanNested | src/support/pj2/lib/edu/rit/util/Instance.java:140-176 | In state 1, nested parentheses and commas inside them go into the token, and `nest` tracks the depth. |
| Instance.ScanOneArgument | src/support/pj2/lib/edu/rit/util/Instance.java:140-176 | A well-formed argument becomes the token. |
| Instance.ScanComma | src/support/pj2/lib/edu/rit/util/Instance.java:162-173 | A top-level comma ends the current argument. |
| Instance.ScanArguments | src/support/pj2/lib/edu/rit/util/Instance.java:140-176 | A comma-joined argument list leaves all but the last in the list and the last in the token. |
| Instance.ScanNameParen | src/support/pj2/lib/edu/rit/util/Instance.java:124-133 | `name(` sets the class name and enters state 1. |
| Instance.ScanOpened | src/support/pj2/lib/edu/rit/util/Instance.java:110-182 | Gives the scanner state after `name(` followed by the arguments. |
| Instance.NoParenStaysInClassName | src/support/pj2/lib/edu/rit/util/Instance.java:124-139 | Without `(`, the scanner never leaves state 0. |
| Instance.NoParenIsError | src/support/pj2/lib/edu/rit/util/Instance.java:183-184 | An expression without `(` is a syntax error. The empty string reports index -1. |
| Instance.MisplacedBeforeClassNameIsError | src/support/pj2/lib/edu/rit/util/Instance.java:124-137 | A `)` or `,` in the class name, or a `(` after an empty name, is an error at that index. |
| Instance.TrailingTextIsError | src/support/pj2/lib/edu/rit/util/Instance.java:177-179 | Any character after the closing `)` is an error at its index. |
| Instance.EmptyArgumentIsError | src/support/pj2/lib/edu/rit/util/Instance.java:162-168 | An empty argument before a comma is an error at that comma. |
| Instance.ParseRender | src/support/pj2/lib/edu/rit/util/Instance.java:110-184 | Parsing a rendered `name(a1,...,an)` with well-formed arguments gives back exactly the name and the arguments. |
| Instance.StepConsumes | src/support/pj2/lib/edu/rit/util/Instance.java:119-181 | No character is lost: the text the scanner state reassembles grows by exactly each accepted character. |
| Instance.ScanConsumes | src/support/pj2/lib/edu/rit/util/Instance.java:119-181 | The same holds for every accepted string. |
| Instance.UnclosedDropsLastArgument | src/support/pj2/lib/edu/rit/util/Instance.java:183-184 | As written, `name(a1,...,an` without `)` is accepted and loses its last argument. |
| Instance.UnclosedIsAccepted | src/support/pj2/lib/edu/rit/util/Instance.java:183-184 | As written, `A(b` parses as `A()`, which does not render back to `A(b`. |
| Instance.ParseStrict | src/support/pj2/lib/edu/rit/util/Instance.java:183-184 | The corrected parser, which also requires the closing `)`, agrees with `Parse` wherever it accepts. |
| Instance.ParseStrictInvertsRender | src/support/pj2/lib/edu/rit/util/Instance.java:110-184 | The corrected parser inverts `Render`, and everything it accepts is a rendering. |
| SeparatingAxis.IsOverlapping | src/miweinst/engine/collisiondetection/SeparatingAxis.java:31-36 | For intervals of positive length, overlap means that their intersection has positive length. |
| SeparatingAxis.ProjectPoint | src/miweinst/engine/collisiondetection/SeparatingAxis.java:120-122 | A point projects to its coordinate along the axis: its `x` on the unit x axis and its `y` on the unit y axis. |
| SeparatingAxis.IntervalMTV | src/miweinst/engine/collisiondetection/SeparatingAxis.java:42-57 | The MTV is one of the two pushes `b.max - a.min` or `b.min - a.max`. |
| SeparatingAxis.Shift | src/miweinst/engine/collisiondetection/SeparatingAxis.java:42-57 | Shifting an interval keeps its width. |
| SeparatingAxis.ProjectCircle | src/miweinst/engine/collisiondetection/SeparatingAxis.java:63-66 | A circle projects to an interval of width 2r centred on the projection of its centre. |
| SeparatingAxis.ProjectPolygon | src/miweinst/engine/collisiondetection/SeparatingAxis.java:90-118 | The loop returns the smallest and largest vertex projections, each attained by some vertex. An empty polygon gives `None`. |
| SeparatingAxis.OverlapIsSymmetric | src/miweinst/engine/collisiondetection/SeparatingAxis.java:31-36 | Overlap is symmetric. |
| SeparatingAxis.TouchingIsNotOverlapping | src/miweinst/engine/collisiondetection/SeparatingAxis.java:31-36 | Intervals that only share an endpoint do not overlap, because the comparisons are strict. |
| SeparatingAxis.MTVExactlyOnOverlap | src/miweinst/engine/collisiondetection/SeparatingAxis.java:42-57 | An MTV exists exactly when the intervals overlap. |
| SeparatingAxis.MTVIsShorterMove | src/miweinst/engine/collisiondetection/SeparatingAxis.java:42-57 | The MTV is the shorter of the two pushes that separate the intervals. |
| SeparatingAxis.ShiftOverlapsIff | src/miweinst/engine/collisiondetection/SeparatingAxis.java:31-36 | A shifted interval overlaps `b` exactly for shifts strictly between the two pushes. |
| SeparatingAxis.MTVSeparatesMinimally | src/miweinst/engine/collisiondetection/SeparatingAxis.java:42-57 | Shifting by the MTV separates the intervals. Every separating shift is at least as long as the MTV. |
| World.Saturate32 | src/miweinst/engine/world/GameWorld.java:57 | The `(int)` cast of a float saturates at the `int` bounds. |
| World.ItersFor | src/miweinst/engine/world/GameWorld.java:56-57 | `_iters` is the accumulated time over the timestep, rounded toward zero, and saturates at `Integer.MAX_VALUE`. |
| World.TickNanos | src/miweinst/engine/world/GameWorld.java:75 | Each sub-step is told `nanos / _iters`, rounded toward zero. Without iterations, no sub-step runs and the value is 0. |
| World.RemainderAsWritten | src/miweinst/engine/world/GameWorld.java:78 | The accumulator as written differs from the exact remainder by a multiple of 2^32, the wrap of the `int` product. |
| World.IterationCalls | src/miweinst/engine/world/GameWorld.java:59-76 | The body of the iteration loop makes exactly the calls `IterationOf` lists: clears, pair checks and ticks, in order. |
| World.IndexOf | src/miweinst/engine/world/GameWorld.java:156-159 | Returns the first occurrence of `e`. |
| World.GameWorld.constructor | src/miweinst/engine/world/GameWorld.java:39-51 | The timestep is 20 ms, the accumulator is 0, there is 1 iteration and no entities. |
| World.GameWorld.OnTick | src/miweinst/engine/world/GameWorld.java:55-79 | `_iters` is the accumulated time over the timestep. Each iteration is `IterationOf` with tick `nanos / iters`. The accumulator keeps the source's `int`-product remainder. |
| World.GameWorld.AddEntity | src/miweinst/engine/world/GameWorld.java:153-155 | Appends the entity, and nothing else changes. |
| World.GameWorld.AddEntityToFront | src/miweinst/engine/world/GameWorld.java:163-165 | Prepends the entity. |
| World.GameWorld.RemoveEntity | src/miweinst/engine/world/GameWorld.java:156-159 | Removes the first occurrence only. |
| World.GameWorld.AddEntities | src/miweinst/engine/world/GameWorld.java:168-171 | Appends all the entities in order. |
| World.GameWorld.AddEntitiesToFront | src/miweinst/engine/world/GameWorld.java:173-176 | Prepends the entities, ending up in reverse order. |
| World.GameWorld.RemoveEntities | src/miweinst/engine/world/GameWorld.java:179-182 | Removes the first occurrence of each entity in turn. |
| World.GameWorld.GetEntitiesToArr | src/miweinst/engine/world/GameWorld.java:148-150 | Returns a fresh array holding the list. |
| World.GameWorld.CastRay | src/miweinst/engine/world/GameWorld.java:213-227 | `null` exactly when no non-skipped, non-static entity is hit. Otherwise the result is a hit nearest to `src`, and the earliest one on ties. |
| World.SlotsInOrder | src/miweinst/engine/world/GameWorld.java:61-63 | The clearing loop visits slots 0 to n-1 in order. |
| World.CheckedMembers | src/miweinst/engine/world/GameWorld.java:67-72 | Row `i` checks slot `x` exactly when `i < x` and the slots hold different entities. |
| World.CheckedIncreasing | src/miweinst/engine/world/GameWorld.java:67-72 | The checked slots of a row are strictly increasing. |
| World.RowsInOrder | src/miweinst/engine/world/GameWorld.java:66-76 | Row `k` is slot `k`'s checks followed by its tick. |
| World.PairCheckedOnceBeforeTicks | src/miweinst/engine/world/GameWorld.java:66-76 | Each pair of different entities is checked exactly once per iteration, before either entity ticks. |
| World.RemainderBelowTimestep | src/miweinst/engine/world/GameWorld.java:56-78 | With an exact product, the remainder stays in `[0, timestep)`. |
| World.RemainderAsWrittenWhenProductFits | src/miweinst/engine/world/GameWorld.java:78 | While `_iters * _timestep` fits in an `int`, the source's remainder is the exact one. |
| World.AccumulatorOverflow | src/miweinst/engine/world/GameWorld.java:78 | As written, a 2.2 s frame at the 20 ms timestep leaves 2^32 ns in the accumulator instead of 0. |
| World.RemoveFirstTakesOne | src/miweinst/engine/world/GameWorld.java:156-159 | `removeEntity` removes one copy if present. Otherwise the list is unchanged. |
| World.RemoveEachIsDifference | src/miweinst/engine/world/GameWorld.java:179-182 | `removeEntities` leaves the multiset difference. |
| World.ReverseAt | src/miweinst/engine/world/GameWorld.java:173-176 | The entities added to the front appear in reverse order. |
| World.ReverseSnoc | src/miweinst/engine/world/GameWorld.java:173-176 | Adding one more to the front puts it first. |
| Physics.PhysicsEntity.Mass | src/miweinst/engine/world/PhysicsEntity.java:92-94 | The mass (density times area) is positive. |
| Physics.PhysicsEntity.MomentOfInertia | src/miweinst/engine/world/PhysicsEntity.java:103-105 | The moment of inertia is positive. |
| Physics.PhysicsEntity.constructor | src/miweinst/engine/world/PhysicsEntity.java:51-70 | The entity is at rest at its location, unloaded, with no records. It is non-static, interactive, rotatable, gravitational and free-moving, with density 1. |
| Physics.PhysicsEntity.Move | src/miweinst/engine/world/PhysicsEntity.java:125-129 | Moves the location unless the entity is static. Nothing else changes. |
| Physics.PhysicsEntity.ApplyForce | src/miweinst/engine/world/PhysicsEntity.java:173-181 | Unless static, adds the force and, if rotatable, the torque of the running total. |
| Physics.PhysicsEntity.ApplyImpulse | src/miweinst/engine/world/PhysicsEntity.java:185-193 | Does the same for the impulse. |
| Physics.PhysicsEntity.SymplecticUpdate | src/miweinst/engine/world/PhysicsEntity.java:146-168 | The motion becomes `Integrate` of the old motion and loads, and both accumulators reset. |
| Physics.PhysicsEntity.OnTick | src/miweinst/engine/world/PhysicsEntity.java:132-141 | A free-moving non-static body first moves by its per-tick delta. Gravity times the mass is then added to the force of a non-static body, at its centroid. The motion is then integrated from the moved location, both accumulators reset, and the records and flags are kept. |
| Physics.PhysicsEntity.Recoil | src/miweinst/engine/world/PhysicsEntity.java:268-299 | One side of the response: moved by its mass share of the MTV, impulse applied, collision recorded. |
| Physics.PhysicsEntity.Separate | src/miweinst/engine/world/PhysicsEntity.java:259-300 | Both sides are separated, each with its own MTV, and receive equal and opposite impulses at the poi (or the centroids). |
| Physics.PhysicsEntity.CollisionResponse | src/miweinst/engine/world/PhysicsEntity.java:252-311 | The new state of both entities is `Responded`. They separate when both MTVs are non-zero and a poi exists. Otherwise nothing moves, and missing data appends a null record for each side that lacks it. |
| Physics.PhysicsEntity.Collides | src/miweinst/engine/world/PhysicsEntity.java:233-241 | Two static entities never collide and are left untouched. Otherwise the result is the detection verdict. Between two interactive entities the response runs whatever the verdict, and both entities end as `Responded` states. Otherwise nothing changes. |
| Physics.PhysicsEntity.DidCollide | src/miweinst/engine/world/PhysicsEntity.java:463-470 | True exactly when some record is non-null. |
| Physics.PhysicsEntity.DidCollideWith | src/miweinst/engine/world/PhysicsEntity.java:477-484 | True exactly when some record names `other`. |
| Physics.LinearIsSum | src/miweinst/engine/world/PhysicsEntity.java:173-181 | The linear part of the loads is the sum of the applied vectors. |
| Physics.NonRotatableKeepsTorque | src/miweinst/engine/world/PhysicsEntity.java:173-181 | A non-rotatable entity accumulates no torque. |
| Physics.TorqueCountsEarlierLoads | src/miweinst/engine/world/PhysicsEntity.java:177-179 | The torque uses the running total. A push along the lever arm exerts no torque on its own, but it does after an earlier force in the same tick. |
| Physics.IntegrateStep | src/miweinst/engine/world/PhysicsEntity.java:146-168 | Momentum changes by force times time plus impulse, and the position advances by the new velocity (symplectic Euler). |
| Physics.UnloadedBodyCoasts | src/miweinst/engine/world/PhysicsEntity.java:146-168 | With no load, the velocities are kept and the body drifts uniformly. |
| Physics.SharesSplitMtv | src/miweinst/engine/world/PhysicsEntity.java:268-280 | The mass shares lie strictly between 0 and 1, sum to 1, and favour the lighter body. Against a static body the share is 1. |
| Physics.NullEntriesAreNotCollisions | src/miweinst/engine/world/PhysicsEntity.java:303-310 | Null records never count as collisions. |
| Physics.RecordedCollisionIsFound | src/miweinst/engine/world/PhysicsEntity.java:298-299 | A recorded collision is found by `didCollide(other)`, and so by `didCollide()`. |
| Bezier.Factorial | src/miweinst/engine/beziercurve/CubicBezierCurve.java:761-766 | The denominator's product is at least 1. |
| Bezier.ChooseAsWritten | src/miweinst/engine/beziercurve/CubicBezierCurve.java:756-768 | Invalid arguments give 0. Any other result is an `int`. It fails only for valid arguments, and it never returns exactly when `k` is `Integer.MAX_VALUE`. |
| Bezier.Binomial | src/miweinst/engine/beziercurve/CubicBezierCurve.java:756-768 | The intended `choose`: 0 when `k > n`, at least 1 otherwise, and 1 when `k == n`. |
| Bezier.Choose | src/miweinst/engine/beziercurve/CubicBezierCurve.java:756-768 | The loop computes `ChooseAsWritten`: 32-bit products and a truncating division. Invalid arguments give 0. |
| Bezier.ChooseExact | src/miweinst/engine/beziercurve/CubicBezierCurve.java:756-768 | The corrected loop returns C(n, k) for `0 <= k <= n`, and 0 otherwise. |
| Bezier.BinomialTimesFactorial | src/miweinst/engine/beziercurve/CubicBezierCurve.java:761-767 | C(n, k) k! is the falling factorial the loop builds. |
| Bezier.FallingTimesRest | src/miweinst/engine/beziercurve/CubicBezierCurve.java:761-766 | The falling factorial times (n-k)! is n!. |
| Bezier.BinomialSymmetric | src/miweinst/engine/beziercurve/CubicBezierCurve.java:756-768 | C(n, k) = C(n, n-k). |
| Bezier.ChooseIsBinomialWithoutOverflow | src/miweinst/engine/beziercurve/CubicBezierCurve.java:756-768 | When the numerator fits in an `int`, `choose` is the binomial coefficient. |
| Bezier.ChooseSymmetricWithoutOverflow | src/miweinst/engine/beziercurve/CubicBezierCurve.java:756-768 | When both numerators fit, `choose` is symmetric. |
| Bezier.ChooseWrapsAt13 | src/miweinst/engine/beziercurve/CubicBezierCurve.java:761-767 | As written, `choose(13, 12)` is 4. |
| Bezier.BinomialOf13 | src/miweinst/engine/beziercurve/CubicBezierCurve.java:756-768 | The intended C(13, 12) is 13. |
| Bezier.ChooseDividesByZeroFrom34 | src/miweinst/engine/beziercurve/CubicBezierCurve.java:761-767 | As written, every valid call with `k >= 34` divides by zero, because 34! wraps to 0, although C(k, k) = 1. |
| Bezier.BinomialStep | src/miweinst/engine/beziercurve/CubicBezierCurve.java:761-766 | C(n, i+1)(i+1) = C(n, i)(n-i), the step the corrected loop takes. |
| Bezier.GetPoint | src/miweinst/engine/beziercurve/CubicBezierCurve.java:739-748 | Indices 0 to 3 give the four control points in order. Any other index fails. |
| Bezier.CurveDotProductArguments | src/miweinst/engine/beziercurve/CubicBezierCurve.java:687-702 | For a cubic, every `choose` call gets valid arguments and is exact, the divisor is positive, and the looked-up points exist. |
| Bezier.SmallChoose | src/miweinst/engine/beziercurve/CubicBezierCurve.java:711-732 | Up to n = 5, `choose` is the binomial coefficient, which is at least 1. |
| LevelMenu.Lit | src/miweinst/gravidog/LevelBox.java:123-146 | Between 0 and 3 sprites are coloured, and exactly `stars` of them when `stars` lies in 0..3. |
| LevelMenu.InitialBoxes | src/miweinst/gravidog/LevelMenuScreen.java:56-98 | Ten boxes for levels 1 to 10. Only the first is open, and none shows stars. |
| LevelMenu.WithStar | src/miweinst/gravidog/LevelMenuScreen.java:168-176 | `addStar` adds level `k` to the map and leaves the other levels alone. It adds one to a count below `Integer.MAX_VALUE`, starting from 0 for a new level, and wraps `MAX_VALUE` to `MIN_VALUE`. |
| LevelMenu.AddStarsCount | src/miweinst/gravidog/LevelMenuScreen.java:168-176 | `n` calls of `addStar` add `n` to the current level's count and leave every other level alone. |
| LevelMenu.StarStep | src/miweinst/gravidog/LevelMenuScreen.java:168-176 | One `addStar` is count + 1, starting from 0 for a level not in the map. |
| LevelMenu.RestartCounts | src/miweinst/gravidog/LevelMenuScreen.java:191-194 | After `levelIncomplete`, `n` new stars give a count of exactly `n`. |
| LevelMenu.MergeAt | src/miweinst/gravidog/LevelMenuScreen.java:201-218 | A level's new best is at least its old best and its current count, and is one of the two. With no current count, the old best stays. |
| LevelMenu.Merged | src/miweinst/gravidog/LevelMenuScreen.java:199-221 | After the loop visits levels 0 to n-1, the table holds exactly the stored levels and the visited ones. |
| LevelMenu.MergedAt | src/miweinst/gravidog/LevelMenuScreen.java:199-219 | After the loop, every level below the box count has an entry, and each entry is that level's merge. |
| LevelMenu.MergedIsBest | src/miweinst/gravidog/LevelMenuScreen.java:199-219 | The merged table dominates both tables, puts 0 for unplayed levels, and leaves other keys alone. |
| LevelMenu.MergedIdempotent | src/miweinst/gravidog/LevelMenuScreen.java:199-219 | Merging twice with the same counts changes nothing more. |
| LevelMenu.Shown | src/miweinst/gravidog/LevelMenuScreen.java:218 | Each box shows its level's best, as `Lit` sprites. |
| LevelMenu.SeparatorAt | src/miweinst/engine/FileIO.java:72 | Finds the first `": "` at or after `from`: one is there, and none comes before it. `None` means that there is none. |
| LevelMenu.Label | src/miweinst/engine/FileIO.java:72-73 | The label and the value around the first `": "` rebuild the line. The label holds no separator, and the value is non-empty. The line is rejected exactly when it has no separator, or its only one ends the line. |
| LevelMenu.SaveLine | src/miweinst/gravidog/LevelMenuScreen.java:137 | The line starts with the level's digits, and the text after `": "` parses back to the level's count. |
| LevelMenu.LabelOfSaveLine | src/miweinst/gravidog/LevelMenuScreen.java:137 | A saved line `i: count` reads back as label `i` and value `count`. |
| LevelMenu.ReadFromGrows | src/miweinst/engine/FileIO.java:71-74 | The reading loop never drops a label, keeps the label of a well-formed line, and stores only non-empty values. |
| LevelMenu.Read | src/miweinst/engine/FileIO.java:60-90 | Every value read is non-empty. A well-formed first line puts its label in the map. A malformed first line, or an empty file, gives the empty map. |
| LevelMenu.ReadSaved | src/miweinst/engine/FileIO.java:60-90 | Reading the lines `save` writes gives one entry per level, `"i"` mapped to its count. |
| LevelMenu.Parsed | src/miweinst/gravidog/LevelMenuScreen.java:113-120 | Level `i` has a count exactly when the label `"i"` is present and its value parses as an `int`, and the count is that value. |
| LevelMenu.Loadable | src/miweinst/gravidog/LevelMenuScreen.java:104-124 | Loading finishes exactly when there is a box 0, a box for every entry, and a parsable count for each level below the entry count. |
| LevelMenu.Counts | src/miweinst/gravidog/LevelMenuScreen.java:109-123 | One parsed count per entry. |
| LevelMenu.LoadedUpToAt | src/miweinst/gravidog/LevelMenuScreen.java:109-123 | After `k` rounds, exactly the levels below `k` with a count are in the best table. |
| LevelMenu.LoadedBox | src/miweinst/gravidog/LevelMenuScreen.java:104-124 | A loaded box opens when it is box 0 or its predecessor has a positive count, and shows its own count. |
| LevelMenu.LoadedBoxes | src/miweinst/gravidog/LevelMenuScreen.java:104-124 | `loadLevel` updates every box as `LoadedBox` says. |
| LevelMenu.LoadUnlocksInOrder | src/miweinst/gravidog/LevelMenuScreen.java:104-124 | On fresh boxes, levels open in order: box 0 is open, and for `i > 0` below the number of loaded entries, box `i` opens exactly when level `i-1` has a star. Boxes at or past the entry count stay closed. |
| LevelMenu.SavedDataLoads | src/miweinst/gravidog/LevelMenuScreen.java:104-141 | When there is at least one box and the table holds no more levels than there are boxes, the saved file loads without an exception, and each level's count is its saved best. |
| LevelMenu.SaveThenLoad | src/miweinst/gravidog/LevelMenuScreen.java:104-141 | Save then load restores the best table, with 0 for missing levels, and exactly when the table has no holes. |
| LevelMenu.CountsRestoreBest | src/miweinst/gravidog/LevelMenuScreen.java:109-123 | Parsed saved counts rebuild the table. |
| LevelMenu.ContiguousTable | src/miweinst/gravidog/LevelMenuScreen.java:130-139 | A table whose keys are `0 .. n-1` is its own padded copy. |
| LevelMenu.ReloadUnlocks | src/miweinst/gravidog/LevelMenuScreen.java:104-141 | After a reload, for `i > 0` below the number of saved levels, box `i` is open exactly when the saved best of level `i-1` is positive. Boxes at or past that number stay closed. |
| LevelMenu.StarTable.constructor | src/miweinst/gravidog/LevelMenuScreen.java:25-26 | Both star maps start empty. |
| LevelMenu.StarTable.AddStar | src/miweinst/gravidog/LevelMenuScreen.java:168-176 | Adds one star to the current level's count. |
| LevelMenu.StarTable.LevelIncomplete | src/miweinst/gravidog/LevelMenuScreen.java:191-194 | The current level's count becomes 0. |
| LevelMenu.StarTable.Clear | src/miweinst/gravidog/LevelMenuScreen.java:160-164 | Writes an empty file and empties both maps. |
| LevelMenu.StarTable.Save | src/miweinst/gravidog/LevelMenuScreen.java:127-141 | Writes one line `i: best` per level `0 .. size-1`, with 0 for a missing level. |
| LevelMenu.LevelMenuScreen.constructor | src/miweinst/gravidog/LevelMenuScreen.java:29-50 | Loadable data yields the loaded boxes and the loaded best table. |
| LevelMenu.LevelMenuScreen.LoadLevel | src/miweinst/gravidog/LevelMenuScreen.java:104-124 | Succeeds exactly on loadable data, and then sets the boxes and the best table as loaded. |
| LevelMenu.LevelMenuScreen.LoadCounts | src/miweinst/gravidog/LevelMenuScreen.java:109-123 | The loop over the parsed counts, with the same outcome. |
| LevelMenu.LevelMenuScreen.OpenLevel | src/miweinst/gravidog/LevelMenuScreen.java:152-157 | Opens an existing box. A negative number throws. A number past the end changes nothing. |
| LevelMenu.LevelMenuScreen.ClearStars | src/miweinst/gravidog/LevelMenuScreen.java:224-226 | The current counts become empty. |
| LevelMenu.LevelMenuScreen.UpdateLevel | src/miweinst/gravidog/LevelMenuScreen.java:201-218 | One round: level `i`'s best becomes its merge, and its box shows it. A table merged up to level `i` is then merged up to level `i + 1`. |
| LevelMenu.LevelMenuScreen.UpdateStars | src/miweinst/gravidog/LevelMenuScreen.java:199-221 | The best table becomes `Merged`, the boxes show it, and the current counts are cleared. |

## Left out

- Drawing, sprites, colours, fonts, mouse and keyboard handling, and the screens that host the world and menu.
  - `CURRENT_LEVEL` is a field of `StarTable`, not set by a mouse press.
  - `getStarsFor` is not modelled.
- `FileIO`'s file access. The lines written and the map read are parameters and results.
  - A line with a second `": "` (which `split` would cut further) is not modelled. `Label` takes the text after the first separator.
- `LevelMenu.LevelMenuScreen.LoadLevel`: when loading fails, the boxes and table may be partly updated. The contract does not state those partial updates, only the `ok` flag.
- `LevelBox.updateStars` resets `_starsEarned` to 0 right after choosing the sprites, so `getStars` always returns 0 after `setStars`. That field and `getStars` are not modelled. Only the number of coloured sprites is.
- Floating point. Floats and vectors are `real`. `nanos / 1e9f`, `nanos / iters` and the accumulator are exact. `_accumulatedTime` is in integer nanoseconds.
- A timestep of 0 or less is not modelled (`setTimestep` is not part of this model).
- `World.Saturate32`: models `(int)` of a finite float only, not NaN.
- Shape collision detection and ray casting. The detection verdict, MTVs, point of intersection and ray hits are parameters of `Collides`, `CollisionResponse` and `CastRay`.
  - Axis normalisation and the `AARect` and `Compound` projections of `SeparatingAxis` are not modelled. The axis is taken as given.
- `calculateImpulse` and `getVelocityAtPoint`. The impulse is a parameter `j`, and its partner receives `-j`.
  - Restitution, `setProperties`, the entity I/O `Inputs`/`Outputs` and `setGravity` are not modelled.
  - Gravity is a parameter of `OnTick`.
- `Physics.PhysicsEntity.Valid`: requires a positive area, density and inertia factor. Entities of zero mass are outside the model.
  - The centroid offset is not rotated with the body.
- `addEntitiesInList`, `removeEntitiesInList`, `addEntitiesInArr`, `removeEntitiesInArr` and the list/array setters are not modelled. They repeat `addEntity` and `removeEntity`, which are modelled.
- `numEntities` and the plain getters and setters of `GameWorld` carry no contract of their own.
- `Bezier.Choose`: the conversion of the result to `float` is not modelled. `k == Integer.MAX_VALUE`, where the `int` counter overflows and the loop never ends, is reported as `NeverReturns`.
  - The float ratios of `getPCurveDotProduct` and the Bernstein polynomials themselves are not modelled. Only their integer arguments are.
- `Random`'s `nextFloat`, `nextDouble` and the floating-point scaling in `nextInt(n)` are not modelled. Only its argument check and its one draw are.
  - The hash function is modelled over 64-bit words as integers. Its bijectivity is not proved.
  - `writeExternal`/`readExternal` are not modelled.
- `Instance.ArgumentsAsInts`: only the ASCII digits `0`-`9` are read as digits. Java's `Integer.parseInt` also accepts the other Unicode decimal digits (`Character.digit`), so an argument such as `١٢` converts there and gives `None` here. Unicode digit tables are not modelled.
- `JavaInt.ParseInt`: the same restriction to ASCII digits, for every caller.
- `LevelMenu.Parsed`: the same restriction to ASCII digits. A save file with other decimal digits is not loadable here, though it would load in Java.
- `Instance`: class loading, reflective constructor lookup and invocation are not modelled (everything after the argument conversion), and neither are the exceptions they throw.
- `stringToColor` and other engine utilities are not modelled.

## Findings

| source | as written | input that shows it | evidently intended | confidence | as-written member | corrected member |
|---|---|---|---|---|---|---|
| src/support/pj2/lib/edu/rit/util/Range.java:251-264 | an empty trailing piece gets `lb = ub + 1`, computed in `long` and cast to `int` | `new Range(Integer.MAX_VALUE, Integer.MAX_VALUE).subrange(2, 1)` gives `MIN_VALUE..MAX_VALUE`, the whole `int` range | an empty range, so that the pieces partition the range | not executed | IntRanges.SubrangeWrapsAtMaxValue | IntRanges.SubrangeCorrectedIsExact |
| src/support/pj2/lib/edu/rit/util/LongRange.java:257-276 | the same cast of `ub + 1` for `long` | `new LongRange(Long.MAX_VALUE, Long.MAX_VALUE).subrange(2, 1)` is the whole `long` range | an empty range | not executed | LongRanges.SubrangeWrapsAtMaxValue | LongRanges.SubrangeCorrectedIsExact |
| src/miweinst/engine/world/GameWorld.java:78 | `_iters * _timestep` is an `int` product | a 2.2 s frame at the 20 ms timestep: 110 * 20000000 wraps, and 2^32 ns stay in the accumulator | subtract the exact product, leaving 0 | not executed | World.AccumulatorOverflow | World.RemainderBelowTimestep |
| src/miweinst/engine/beziercurve/CubicBezierCurve.java:761-767 | numerator and denominator are `int` products | `choose(13, 12)` is 4, not 13 | the binomial coefficient | not executed | Bezier.ChooseWrapsAt13 | Bezier.ChooseExact |
| src/miweinst/engine/beziercurve/CubicBezierCurve.java:761-767 | 34! wraps to 0 as an `int` | `choose(34, 34)` throws `ArithmeticException` | 1 | not executed | Bezier.ChooseDividesByZeroFrom34 | Bezier.ChooseExact |
| src/support/pj2/lib/edu/rit/util/Instance.java:183-184 | only state 0 is rejected at the end of input | `A(b` is accepted as `A()`, and the argument is dropped | a syntax error for an unclosed expression | not executed | Instance.UnclosedIsAccepted | Instance.ParseStrictInvertsRender |
