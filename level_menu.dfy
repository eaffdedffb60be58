/** The star bookkeeping of the level menu (`LevelMenuScreen`, `LevelBox`): the stars
    collected in the level being played, the best score of every level, the save file
    that keeps the best scores, and which level boxes are open. */
module LevelMenu {

  import opened Wrappers
  import opened JavaInt

  /** `initBoxes` creates ten level boxes. */
  const LEVEL_COUNT: nat := 10
  /** A box draws three star sprites. */
  const STAR_SPRITES: nat := 3

  /** A `LevelBox` as far as the menu logic sees it: its level number, whether the level
      may be played, and how many of its star sprites are drawn in colour. */
  datatype LevelBox = LevelBox(levelNum: int, open: bool, lit: nat)

  /** `setStars(stars)`: sprite `i` (0 <= i < 3) is coloured iff `i < stars`. */
  function Lit(stars: int): (n: nat)
    ensures n <= STAR_SPRITES
    ensures 0 <= stars <= STAR_SPRITES as int ==> n == stars
  {
    if stars <= 0 then 0 else if stars >= 3 then 3 else stars
  }

  /** The boxes `initBoxes` creates: levels 1 to 10, only the first open, no stars. */
  function InitialBoxes(): (bs: seq<LevelBox>)
    ensures |bs| == LEVEL_COUNT
    ensures forall i | 0 <= i < |bs| :: bs[i].levelNum == i + 1 && bs[i].lit == 0
    ensures forall i | 0 <= i < |bs| :: bs[i].open <==> i == 0
  {
    seq(LEVEL_COUNT, i requires 0 <= i < LEVEL_COUNT => LevelBox(i + 1, i == 0, 0))
  }

  /** The map key of the level being played: `CURRENT_LEVEL - 1`, an `int` subtraction. */
  function Key(currentLevel: Int32): Int32 {
    Wrap32(currentLevel - 1)
  }

  /** A count read from a map, with 0 for a missing key (what `save` writes for it). */
  function Count(m: map<int, Int32>, k: int): Int32 {
    if k in m then m[k] else 0
  }

  /** `addStar` on the current-count map: one more star for level `k`, the first one if
      the level has none yet; the `int` addition wraps. */
  function WithStar(m: map<int, Int32>, k: int): (r: map<int, Int32>)
    ensures r.Keys == m.Keys + {k}
    ensures forall j | j in m && j != k :: r[j] == m[j]
    ensures 0 <= Count(m, k) < INT_MAX ==> Count(r, k) == Count(m, k) + 1
    ensures Count(m, k) == INT_MAX ==> Count(r, k) == INT_MIN
  {
    m[k := if k in m then Wrap32(m[k] as int + 1) else 1]
  }

  /** `n` calls of `addStar` for level `k`. */
  function AddStars(m: map<int, Int32>, k: int, n: nat): map<int, Int32> {
    if n == 0 then m else WithStar(AddStars(m, k, n - 1), k)
  }

  /** While no count wraps, `n` stars add `n` to the level's count and leave every other
      level alone. */
  lemma {:induction false} AddStarsCount(m: map<int, Int32>, k: int, n: nat)
    requires Count(m, k) >= 0 && Count(m, k) + n <= INT_MAX
    ensures n == 0 ==> AddStars(m, k, n) == m
    ensures n > 0 ==> AddStars(m, k, n) == m[k := Count(m, k) + n]
  {
    if n > 0 {
      var prev := AddStars(m, k, n - 1);
      if n > 1 {
        AddStarsCount(m, k, n - 1);
        assert Count(prev, k) == Count(m, k) + (n - 1);
      }
      StarStep(prev, k);
    }
  }

  /** One star on a count that does not wrap. */
  lemma StarStep(m: map<int, Int32>, k: int)
    requires 0 <= Count(m, k) < INT_MAX
    ensures WithStar(m, k) == m[k := Count(m, k) + 1]
  {
    Wrap32By(Count(m, k) + 1, 0);
  }

  /** After `levelIncomplete` (the count reset to 0) the stars collected since are
      exactly the count. */
  lemma RestartCounts(m: map<int, Int32>, k: int, n: nat)
    requires n <= INT_MAX
    ensures n > 0 ==> AddStars(m[k := 0], k, n) == m[k := n]
  {
    AddStarsCount(m[k := 0], k, n);
  }

  /** `updateStars` for level `i`: the larger of the stored best and the current count
      when both exist, the one that exists, and 0 when neither does. */
  function MergeAt(best: map<int, Int32>, current: map<int, Int32>, i: int): (r: Int32)
    ensures i in best ==> r >= best[i]
    ensures i in current ==> r >= current[i]
    ensures r == Count(best, i) || r == Count(current, i)
    ensures i !in current ==> r == Count(best, i)
  {
    if i in current then
      (if i in best && best[i] >= current[i] then best[i] else current[i])
    else Count(best, i)
  }

  /** The levels 0 to n-1. */
  function Levels(n: int): (s: set<int>)
    ensures forall i :: i in s <==> 0 <= i < n
    decreases n
  {
    if n <= 0 then {} else Levels(n - 1) + {n - 1}
  }

  /** The best-score map after `updateStars` has visited levels 0 to n-1. */
  function Merged(best: map<int, Int32>, current: map<int, Int32>, n: int): (r: map<int, Int32>)
    ensures forall i :: i in r <==> i in best || 0 <= i < n
    decreases n
  {
    if n <= 0 then best else Merged(best, current, n - 1)[n - 1 := MergeAt(best, current, n - 1)]
  }

  /** The merged map level by level: the visited levels hold their `MergeAt`, the others
      their stored best. */
  lemma {:induction false} MergedAt(best: map<int, Int32>, current: map<int, Int32>, n: int)
    ensures forall i | i in Merged(best, current, n) ::
      Merged(best, current, n)[i] == if 0 <= i < n then MergeAt(best, current, i) else best[i]
    decreases n
  {
    if n > 0 {
      MergedAt(best, current, n - 1);
    }
  }

  /** One more level visited: level i still holds its stored best before it is visited. */
  lemma MergedStep(best: map<int, Int32>, current: map<int, Int32>, i: nat)
    ensures i in Merged(best, current, i) <==> i in best
    ensures i in best ==> Merged(best, current, i)[i] == best[i]
    ensures MergeAt(Merged(best, current, i), current, i) == MergeAt(best, current, i)
    ensures Merged(best, current, i + 1) == Merged(best, current, i)[i := MergeAt(best, current, i)]
  {
    MergedAt(best, current, i);
  }

  /** `updateStars` never lowers a stored best, records every current count, writes 0
      for a level with neither, and keeps the levels it does not visit. */
  lemma MergedIsBest(best: map<int, Int32>, current: map<int, Int32>, n: int)
    ensures Merged(best, current, n).Keys == best.Keys + Levels(n)
    ensures forall i | i in best :: Merged(best, current, n)[i] >= best[i]
    ensures forall i | i in current && 0 <= i < n :: Merged(best, current, n)[i] >= current[i]
    ensures forall i | 0 <= i < n && i !in best && i !in current :: Merged(best, current, n)[i] == 0
    ensures forall i | i in best && !(0 <= i < n) :: Merged(best, current, n)[i] == best[i]
  {
    MergedAt(best, current, n);
  }

  /** Running `updateStars` again with the same current counts changes nothing. */
  lemma MergedIdempotent(best: map<int, Int32>, current: map<int, Int32>, n: int)
    ensures Merged(Merged(best, current, n), current, n) == Merged(best, current, n)
  {
    var once := Merged(best, current, n);
    var twice := Merged(once, current, n);
    MergedAt(best, current, n);
    MergedAt(once, current, n);
    assert twice.Keys == once.Keys;
    forall i | i in once
      ensures twice[i] == once[i]
    {
      if 0 <= i < n {
        assert twice[i] == MergeAt(once, current, i);
      }
    }
  }

  /** Boxes that each show their level's merged best are the merged map shown. */
  lemma ShowMerged(bs: seq<LevelBox>, best: map<int, Int32>, current: map<int, Int32>, boxes: seq<LevelBox>)
    requires |boxes| == |bs|
    requires forall j | 0 <= j < |bs| :: boxes[j] == bs[j].(lit := Lit(MergeAt(best, current, j)))
    ensures boxes == Shown(bs, Merged(best, current, |bs|))
  {
    MergedAt(best, current, |bs|);
  }

  /** The boxes after the stored bests are shown: each box with a best gets its sprites. */
  function Shown(bs: seq<LevelBox>, best: map<int, Int32>): (r: seq<LevelBox>)
    ensures |r| == |bs|
    ensures forall i | 0 <= i < |bs| && i !in best :: r[i] == bs[i]
    ensures forall i | 0 <= i < |bs| && i in best ::
      r[i].levelNum == bs[i].levelNum && r[i].open == bs[i].open && r[i].lit == Lit(best[i])
  {
    seq(|bs|, i requires 0 <= i < |bs| => if i in best then bs[i].(lit := Lit(best[i])) else bs[i])
  }

  /** Line `i` of the save file: "i: n" with `n` the best of level `i`, 0 if it has none. */
  function SaveLine(best: map<int, Int32>, i: nat): (line: string)
    ensures |line| > |Decimal(i)| + 2 && line[..|Decimal(i)|] == Decimal(i)
    ensures ParseInt(line[|Decimal(i)| + 2..]) == Some(Count(best, i) as int)
  {
    ParseIntOfIntString(Count(best, i));
    assert (Decimal(i) + ": " + IntString(Count(best, i)))[|Decimal(i)| + 2..] == IntString(Count(best, i));
    Decimal(i) + ": " + IntString(Count(best, i))
  }

  /** Where `FileIO.read`'s `split(": ")` first cuts a line, searching from `from`. */
  function SeparatorAt(line: string, from: nat): (p: Option<nat>)
    ensures p.Some? ==> from <= p.value && p.value + 2 <= |line|
    ensures p.Some? ==> line[p.value] == ':' && line[p.value + 1] == ' '
    ensures p.None? ==> forall q | from <= q && q + 2 <= |line| :: !(line[q] == ':' && line[q + 1] == ' ')
    ensures p.Some? ==> forall q | from <= q < p.value :: !(line[q] == ':' && line[q + 1] == ' ')
    decreases |line| - from
  {
    if from + 2 > |line| then None
    else if line[from] == ':' && line[from + 1] == ' ' then Some(from)
    else SeparatorAt(line, from + 1)
  }

  /** One line of the save file as `FileIO.read` takes it apart: the label before the
      first ": " and the text after it; `None` when the line has no separator or nothing
      after it, where `read` stops with an `ArrayIndexOutOfBoundsException`. */
  function Label(line: string): (r: Option<(string, string)>)
    ensures r.Some? ==> line == r.value.0 + ": " + r.value.1 && r.value.1 != []
    ensures r.Some? ==> forall q | 0 <= q < |r.value.0| :: !(line[q] == ':' && line[q + 1] == ' ')
    ensures r.None? <==> forall q | 0 <= q && q + 2 <= |line| && line[q] == ':' && line[q + 1] == ' ' ::
                           q + 2 == |line|
  {
    match SeparatorAt(line, 0)
    case None => None
    case Some(p) =>
      var v := line[p + 2..];
      if v == [] then None else Some((line[..p], v))
  }

  /** `FileIO.read` from the map `m` read so far: each line adds its label and value,
      and the first malformed line ends the reading. */
  function ReadFrom(m: map<string, string>, lines: seq<string>): map<string, string>
    decreases |lines|
  {
    if lines == [] then m
    else match Label(lines[0])
      case None => m
      case Some(kv) => ReadFrom(m[kv.0 := kv.1], lines[1..])
  }

  /** Reading never drops a label, keeps the label of a well-formed first line, and adds
      only non-empty values. */
  lemma {:induction false} ReadFromGrows(m: map<string, string>, lines: seq<string>)
    ensures m.Keys <= ReadFrom(m, lines).Keys
    ensures lines != [] && Label(lines[0]).Some? ==> Label(lines[0]).value.0 in ReadFrom(m, lines)
    ensures (forall k | k in m :: m[k] != []) ==> forall k | k in ReadFrom(m, lines) :: ReadFrom(m, lines)[k] != []
    decreases |lines|
  {
    if lines != [] {
      match Label(lines[0])
      case None =>
      case Some(kv) =>
        ReadFromGrows(m[kv.0 := kv.1], lines[1..]);
    }
  }

  /** `FileIO.read`: the save file's lines as a map from label to value. */
  function Read(lines: seq<string>): (data: map<string, string>)
    ensures forall k | k in data :: data[k] != []
    ensures lines != [] && Label(lines[0]).Some? ==> Label(lines[0]).value.0 in data
    ensures lines == [] || Label(lines[0]).None? ==> data == map[]
  {
    ReadFromGrows(map[], lines);
    ReadFrom(map[], lines)
  }

  /** A line "i: n" is cut after the digits of `i`. */
  lemma {:induction false} LabelOfSaveLine(best: map<int, Int32>, i: nat)
    ensures Label(SaveLine(best, i)) == Some((Decimal(i), IntString(Count(best, i))))
  {
    var d, v := Decimal(i), IntString(Count(best, i));
    var line := d + ": " + v;
    assert line == SaveLine(best, i);
    assert line[|d|] == ':' && line[|d| + 1] == ' ';
    assert forall q | 0 <= q < |d| :: line[q] == d[q] && d[q] != ':';
    match SeparatorAt(line, 0)
    case None =>
      assert false;
    case Some(p) =>
      SeparatorFirst(line, 0, |d|);
      assert line[..p] == d && line[p + 2..] == v;
  }

  /** The search finds no separator before position `q` when none starts there. */
  lemma {:induction false} SeparatorFirst(line: string, from: nat, q: nat)
    requires from <= q && q + 2 <= |line| && line[q] == ':' && line[q + 1] == ' '
    requires forall k | from <= k < q :: line[k] != ':'
    ensures SeparatorAt(line, from) == Some(q)
    decreases q - from
  {
    if from < q {
      SeparatorFirst(line, from + 1, q);
    }
  }

  /** The lines `save` writes for `best`. */
  predicate SavedLines(best: map<int, Int32>, lines: seq<string>) {
    |lines| == |best| && forall i | 0 <= i < |lines| :: lines[i] == SaveLine(best, i)
  }

  /** Reading the saved lines gives one label per line: "i" maps to the text of the best
      of level `i`. */
  lemma ReadSaved(best: map<int, Int32>, lines: seq<string>)
    requires SavedLines(best, lines)
    ensures |Read(lines)| == |lines|
    ensures forall i | 0 <= i < |lines| ::
      Decimal(i) in Read(lines) && Read(lines)[Decimal(i)] == IntString(Count(best, i))
  {
    ReadSavedFrom(best, lines, map[], 0);
    assert lines[0..] == lines;
  }

  /** The induction behind `ReadSaved`: reading from line `j` on, with lines 0 to j-1
      already in `m`. */
  lemma {:induction false} ReadSavedFrom(best: map<int, Int32>, lines: seq<string>,
                                         m: map<string, string>, j: nat)
    requires SavedLines(best, lines) && j <= |lines|
    requires |m| == j
    requires forall k | k in m :: AllDigits(k) && DecimalValue(k) < j
    requires forall i | 0 <= i < j :: Decimal(i) in m && m[Decimal(i)] == IntString(Count(best, i))
    ensures |ReadFrom(m, lines[j..])| == |lines|
    ensures forall i | 0 <= i < |lines| ::
      Decimal(i) in ReadFrom(m, lines[j..]) &&
      ReadFrom(m, lines[j..])[Decimal(i)] == IntString(Count(best, i))
    decreases |lines| - j
  {
    if j < |lines| {
      LabelOfSaveLine(best, j);
      var k, v := Decimal(j), IntString(Count(best, j));
      DecimalValueOfDecimal(j);
      assert k !in m;
      var m' := m[k := v];
      assert lines[j..][1..] == lines[j + 1..];
      assert ReadFrom(m, lines[j..]) == ReadFrom(m', lines[j + 1..]);
      forall i | 0 <= i < j + 1
        ensures Decimal(i) in m' && m'[Decimal(i)] == IntString(Count(best, i))
      {
        if i < j {
          assert Decimal(i) != k by {
            if Decimal(i) == k { DecimalInjective(i, j); }
          }
        }
      }
      forall key | key in m'
        ensures AllDigits(key) && DecimalValue(key) < j + 1
      {
      }
      ReadSavedFrom(best, lines, m', j + 1);
    } else {
      assert lines[j..] == [];
    }
  }

  /** The count `loadLevel` reads for level `i`: `Integer.parseInt` of the value under
      the label "i", `None` where the label is missing or the value is not a number
      (the `NumberFormatException`). */
  function Parsed(data: map<string, string>, i: nat): (c: Option<Int32>)
    ensures c.Some? <==> Decimal(i) in data && ParseInt(data[Decimal(i)]).Some?
    ensures c.Some? ==> ParseInt(data[Decimal(i)]) == Some(c.value as int)
  {
    if Decimal(i) !in data then None
    else match ParseInt(data[Decimal(i)])
      case None => None
      case Some(v) => Some(v as Int32)
  }

  /** The counts of levels 0 to |data|-1, the levels `loadLevel` visits. */
  function Counts(data: map<string, string>): (cs: seq<Option<Int32>>)
    ensures |cs| == |data|
  {
    seq(|data|, i requires 0 <= i < |data| => Parsed(data, i))
  }

  /** Every visited level has a count. */
  predicate AllCounted(cs: seq<Option<Int32>>) {
    CountedUpTo(cs, |cs|)
  }

  /** Levels 0 to k-1 have a count. */
  predicate CountedUpTo(cs: seq<Option<Int32>>, k: nat)
    requires k <= |cs|
  {
    forall i | 0 <= i < k :: cs[i].Some?
  }

  /** One more level with a count. */
  lemma CountedStep(cs: seq<Option<Int32>>, i: nat)
    requires i < |cs| && CountedUpTo(cs, i) && cs[i].Some?
    ensures CountedUpTo(cs, i + 1)
  {
  }

  /** What `loadLevel` needs to finish: box 0 exists, a box for every entry, and a count
      for every level below the entry count. */
  predicate Loadable(data: map<string, string>, boxCount: nat)
    ensures Loadable(data, boxCount) <==>
              0 < boxCount && |data| <= boxCount && forall i | 0 <= i < |data| :: Parsed(data, i).Some?
  {
    assert forall i | 0 <= i < |data| :: Counts(data)[i] == Parsed(data, i);
    boxCount > 0 && |data| <= boxCount && AllCounted(Counts(data))
  }

  /** The counts of levels 0 to k-1 that `loadLevel` puts into the best-score map. */
  function LoadedUpTo(cs: seq<Option<Int32>>, k: nat): map<int, Int32>
    requires k <= |cs|
  {
    if k == 0 then map[]
    else
      var m := LoadedUpTo(cs, k - 1);
      match cs[k - 1]
      case None => m
      case Some(v) => m[k - 1 := v]
  }

  /** The counts `loadLevel` puts into the best-score map, by level. */
  function LoadedCounts(data: map<string, string>): map<int, Int32> {
    LoadedUpTo(Counts(data), |data|)
  }

  /** The loaded counts level by level: level i is there iff it is below k and has a
      count, and then it holds that count. */
  lemma {:induction false} LoadedUpToAt(cs: seq<Option<Int32>>, k: nat)
    requires k <= |cs|
    ensures forall i :: i in LoadedUpTo(cs, k) <==> 0 <= i < k && cs[i].Some?
    ensures forall i | i in LoadedUpTo(cs, k) :: 0 <= i < k && cs[i] == Some(LoadedUpTo(cs, k)[i])
  {
    if k > 0 {
      LoadedUpToAt(cs, k - 1);
    }
  }

  /** Updating a union updates its right-hand side. */
  lemma UnionUpdate(a: map<int, Int32>, b: map<int, Int32>, k: int, v: Int32)
    ensures (a + b)[k := v] == a + b[k := v]
  {
    assert ((a + b)[k := v]).Keys == (a + b[k := v]).Keys;
  }

  /** Putting level i's count extends the loaded prefix by one level. */
  lemma LoadStep(best: map<int, Int32>, cs: seq<Option<Int32>>, i: nat, m: map<int, Int32>)
    requires i < |cs| && cs[i].Some?
    requires m == best + LoadedUpTo(cs, i)
    ensures m[i := cs[i].value] == best + LoadedUpTo(cs, i + 1)
  {
    UnionUpdate(best, LoadedUpTo(cs, i), i, cs[i].value);
  }

  /** Box `i` after `loadLevel`: box 0 is opened; box i > 0 below the entry count is
      opened when level i-1's count is positive; a loaded level shows its count. */
  function LoadedBox(b: LevelBox, cs: seq<Option<Int32>>, i: nat): (r: LevelBox)
    ensures r.levelNum == b.levelNum
    ensures r.open <==> b.open || i == 0 || (i < |cs| && cs[i - 1].Some? && cs[i - 1].value > 0)
    ensures r.lit == if i < |cs| && cs[i].Some? then Lit(cs[i].value) else b.lit
  {
    var unlocked := i == 0 || (i < |cs| && cs[i - 1].Some? && cs[i - 1].value > 0);
    var b1 := if unlocked then b.(open := true) else b;
    if i < |cs| && cs[i].Some? then b1.(lit := Lit(cs[i].value)) else b1
  }

  /** All boxes after `loadLevel`. */
  function LoadedBoxes(bs: seq<LevelBox>, cs: seq<Option<Int32>>): (r: seq<LevelBox>)
    ensures |r| == |bs|
    ensures forall i | 0 <= i < |bs| :: r[i] == LoadedBox(bs[i], cs, i)
  {
    seq(|bs|, i requires 0 <= i < |bs| => LoadedBox(bs[i], cs, i))
  }

  /** On the ten fresh boxes, `loadLevel` opens box 0 and, for i > 0, exactly the boxes
      below the entry count whose previous level has a positive count; each shows its
      level's loaded count. */
  lemma LoadUnlocksInOrder(cs: seq<Option<Int32>>)
    requires AllCounted(cs) && |cs| <= LEVEL_COUNT
    ensures var bs := LoadedBoxes(InitialBoxes(), cs);
      bs[0].open &&
      (forall i | 0 < i < LEVEL_COUNT as int :: bs[i].open <==> i < |cs| && cs[i - 1].value > 0) &&
      (forall i | 0 <= i < LEVEL_COUNT as int :: bs[i].lit == if i < |cs| then Lit(cs[i].value) else 0)
  {
  }

  /** The data `FileIO.read` returns for the saved lines loads, and each level's count is
      the saved best. */
  lemma SavedDataLoads(best: map<int, Int32>, lines: seq<string>, boxCount: nat)
    requires SavedLines(best, lines)
    requires 0 < boxCount && |best| <= boxCount
    ensures |Read(lines)| == |best|
    ensures Loadable(Read(lines), boxCount)
    ensures forall i | 0 <= i < |best| :: Counts(Read(lines))[i] == Some(Count(best, i))
  {
    ReadSaved(best, lines);
    var data := Read(lines);
    forall i | 0 <= i < |best|
      ensures Counts(data)[i] == Some(Count(best, i))
    {
      ParseIntOfIntString(Count(best, i));
    }
  }

  /** Saving and then loading restores every saved best; a table whose levels are
      0 to n-1, as `updateStars` leaves it, comes back whole. */
  lemma SaveThenLoad(best: map<int, Int32>, lines: seq<string>)
    requires SavedLines(best, lines)
    ensures LoadedCounts(Read(lines)) == map i | i in Levels(|best|) :: Count(best, i)
    ensures best.Keys == Levels(|best|) ==> LoadedCounts(Read(lines)) == best
  {
    SavedDataLoads(best, lines, |best| + 1);
    CountsRestoreBest(best, Counts(Read(lines)));
    if best.Keys == Levels(|best|) {
      ContiguousTable(best);
    }
  }

  /** Loading the counts of the saved lines gives back the saved bests. */
  lemma CountsRestoreBest(best: map<int, Int32>, cs: seq<Option<Int32>>)
    requires |cs| == |best| && forall i | 0 <= i < |cs| :: cs[i] == Some(Count(best, i))
    ensures LoadedUpTo(cs, |cs|) == map i | i in Levels(|best|) :: Count(best, i)
  {
    LoadedUpToAt(cs, |cs|);
    var loaded := LoadedUpTo(cs, |cs|);
    var saved := map i | i in Levels(|best|) :: Count(best, i);
    assert loaded.Keys == saved.Keys;
  }

  /** A table whose levels are 0 to n-1 is its own saved form. */
  lemma ContiguousTable(best: map<int, Int32>)
    requires best.Keys == Levels(|best|)
    ensures (map i | i in Levels(|best|) :: Count(best, i)) == best
  {
  }

  /** A menu built from the saved lines opens level box i > 0 exactly when level i-1 has
      a best above 0, for the levels the file holds. */
  lemma ReloadUnlocks(best: map<int, Int32>, lines: seq<string>)
    requires SavedLines(best, lines) && |best| <= LEVEL_COUNT
    ensures var bs := LoadedBoxes(InitialBoxes(), Counts(Read(lines)));
      bs[0].open &&
      forall i | 0 < i < LEVEL_COUNT as int :: bs[i].open <==> i < |best| && Count(best, i - 1) > 0
  {
    SavedDataLoads(best, lines, LEVEL_COUNT);
    LoadUnlocksInOrder(Counts(Read(lines)));
  }

  /** The stars recorded across the game: `CURRENT_LEVEL`, the current level's
      `star_map` and the best scores `max_star_map`, all static in the menu screen. */
  class StarTable {
    var currentLevel: Int32
    var starMap: map<int, Int32>
    var maxStarMap: map<int, Int32>

    /** The static initialisers: level 1, both maps empty. */
    constructor()
      ensures currentLevel == 1 && starMap == map[] && maxStarMap == map[]
    {
      currentLevel := 1;
      starMap := map[];
      maxStarMap := map[];
    }

    /** `addStar`: one more star for the level being played. */
    method AddStar()
      modifies this`starMap
      ensures starMap == WithStar(old(starMap), Key(currentLevel))
    {
      var k := Key(currentLevel);
      if k in starMap {
        starMap := starMap[k := Wrap32(starMap[k] as int + 1)];
      } else {
        starMap := starMap[k := 1];
      }
    }

    /** `levelIncomplete`: the player died or restarted; the level's stars are lost. */
    method LevelIncomplete()
      modifies this`starMap
      ensures starMap == old(starMap)[Key(currentLevel) := 0]
      ensures Key(currentLevel) in starMap && starMap[Key(currentLevel)] == 0
    {
      starMap := starMap[Key(currentLevel) := 0];
    }

    /** `clear`: the save file is overwritten with no lines and both maps are emptied. */
    method Clear() returns (written: seq<string>)
      modifies this`starMap, this`maxStarMap
      ensures written == [] && starMap == map[] && maxStarMap == map[]
    {
      written := [];
      maxStarMap := map[];
      starMap := map[];
    }

    /** `save`: the lines written to the save file, one per level from 0 to the size of
        the best-score map, each with the level's best or 0. */
    method Save() returns (lines: seq<string>)
      ensures SavedLines(maxStarMap, lines)
    {
      lines := [];
      var i := 0;
      while i < |maxStarMap|
        invariant 0 <= i <= |maxStarMap| && |lines| == i
        invariant forall j | 0 <= j < i :: lines[j] == SaveLine(maxStarMap, j)
      {
        var value := if i in maxStarMap then maxStarMap[i] else 0;
        lines := lines + [Decimal(i) + ": " + IntString(value)];
        i := i + 1;
      }
    }
  }

  /** The level menu: its boxes and the shared star table. */
  class LevelMenuScreen {
    var boxes: seq<LevelBox>
    const table: StarTable

    /** The constructor: `initBoxes`, then `loadLevel` on the data `FileIO.read` returns. */
    constructor(table: StarTable, data: map<string, string>)
      modifies table`maxStarMap
      ensures this.table == table
      ensures Loadable(data, LEVEL_COUNT) ==>
        boxes == LoadedBoxes(InitialBoxes(), Counts(data)) &&
        table.maxStarMap == old(table.maxStarMap) + LoadedCounts(data)
    {
      this.table := table;
      boxes := InitialBoxes();
      new;
      var _ := LoadLevel(data);
    }

    /** `loadLevel`: `ok` is false where the source throws (a missing or malformed
        entry, or more entries than boxes). Otherwise each loaded count becomes the
        level's best and the boxes open as `LoadedBoxes` says. The counts are parsed
        by `Counts`, then visited in order by `LoadCounts`. */
    method LoadLevel(data: map<string, string>) returns (ok: bool)
      modifies this`boxes, table`maxStarMap
      ensures ok <==> Loadable(data, |old(boxes)|)
      ensures ok ==> boxes == LoadedBoxes(old(boxes), Counts(data))
      ensures ok ==> table.maxStarMap == old(table.maxStarMap) + LoadedCounts(data)
    {
      ok := LoadCounts(Counts(data));
    }

    /** The loop of `loadLevel` over the parsed counts: box 0 opens, then for each level
        i, box i opens if level i-1's count is positive, and level i's count is stored
        as its best and shown on box i. */
    method LoadCounts(counts: seq<Option<Int32>>) returns (ok: bool)
      modifies this`boxes, table`maxStarMap
      ensures ok <==> |old(boxes)| > 0 && |counts| <= |old(boxes)| && AllCounted(counts)
      ensures ok ==> boxes == LoadedBoxes(old(boxes), counts)
      ensures ok ==> table.maxStarMap == old(table.maxStarMap) + LoadedUpTo(counts, |counts|)
    {
      if |boxes| == 0 {
        return false;
      }
      ghost var bs0, best0 := boxes, table.maxStarMap;
      boxes := boxes[0 := boxes[0].(open := true)];
      var i := 0;
      while i < |counts|
        invariant 0 <= i <= |counts| && i <= |bs0| && |boxes| == |bs0|
        invariant CountedUpTo(counts, i)
        invariant table.maxStarMap == best0 + LoadedUpTo(counts, i)
        invariant forall j | 0 <= j < i :: boxes[j] == LoadedBox(bs0[j], counts, j)
        invariant forall j | i <= j < |bs0| ::
          boxes[j] == if j == 0 then bs0[0].(open := true) else bs0[j]
      {
        if i > 0 {
          var last := counts[i - 1].value;
          if last > 0 {
            if i >= |boxes| {
              return false;
            }
            boxes := boxes[i := boxes[i].(open := true)];
          }
        }
        if counts[i].None? {
          return false;
        }
        var count := counts[i].value;
        CountedStep(counts, i);
        LoadStep(best0, counts, i, table.maxStarMap);
        table.maxStarMap := table.maxStarMap[i := count];
        if i >= |boxes| {
          return false;
        }
        boxes := boxes[i := boxes[i].(lit := Lit(count))];
        i := i + 1;
      }
      ok := true;
    }

    /** `openLevel`: box `boxNumber` opens when it exists; a negative number makes the
        list access throw (`ok` false); a number past the last box changes nothing. */
    method OpenLevel(boxNumber: Int32) returns (ok: bool)
      modifies this`boxes
      ensures ok <==> boxNumber >= 0
      ensures ok && boxNumber < |old(boxes)| ==>
        boxes == old(boxes)[boxNumber := old(boxes)[boxNumber].(open := true)]
      ensures !(ok && boxNumber < |old(boxes)|) ==> boxes == old(boxes)
    {
      if boxNumber < |boxes| {
        if boxNumber < 0 {
          return false;
        }
        boxes := boxes[boxNumber := boxes[boxNumber].(open := true)];
      }
      ok := true;
    }

    /** `clearStars`: the current counts are dropped, the bests kept. */
    method ClearStars()
      modifies table`starMap
      ensures table.starMap == map[]
    {
      table.starMap := map[];
    }

    /** One pass of the `updateStars` loop: level i's best becomes the larger of its
        stored best and its current count (0 when it has neither), and box i shows it. */
    method UpdateLevel(i: nat, ghost best0: map<int, Int32>)
      requires i < |boxes|
      requires table.maxStarMap == Merged(best0, table.starMap, i)
      modifies this`boxes, table`maxStarMap
      ensures table.maxStarMap == old(table.maxStarMap)[i := MergeAt(old(table.maxStarMap), table.starMap, i)]
      ensures boxes == old(boxes)[i := old(boxes)[i].(lit := Lit(table.maxStarMap[i]))]
      ensures table.maxStarMap == Merged(best0, table.starMap, i + 1)
      ensures table.maxStarMap[i] == MergeAt(best0, table.starMap, i)
    {
      MergedStep(best0, table.starMap, i);
      var best := table.maxStarMap;
      if i in table.starMap {
        var stars := table.starMap[i];
        if i in best {
          if stars > best[i] {
            table.maxStarMap := best[i := stars];
          }
        } else {
          table.maxStarMap := best[i := stars];
        }
      } else {
        boxes := boxes[i := boxes[i].(lit := Lit(0))];
        if i !in best {
          table.maxStarMap := best[i := 0];
        }
      }
      boxes := boxes[i := boxes[i].(lit := Lit(table.maxStarMap[i]))];
    }

    /** `updateStars`: every box's level gets the merged best, every box shows it, and
        the current counts are cleared. */
    method UpdateStars()
      modifies this`boxes, table`starMap, table`maxStarMap
      ensures table.maxStarMap == Merged(old(table.maxStarMap), old(table.starMap), |old(boxes)|)
      ensures boxes == Shown(old(boxes), table.maxStarMap)
      ensures table.starMap == map[]
    {
      ghost var bs0, best0, current0 := boxes, table.maxStarMap, table.starMap;
      var i := 0;
      while i < |boxes|
        invariant 0 <= i <= |boxes| == |bs0|
        invariant table.starMap == current0
        invariant table.maxStarMap == Merged(best0, current0, i)
        invariant forall j | 0 <= j < i :: boxes[j] == bs0[j].(lit := Lit(MergeAt(best0, current0, j)))
        invariant forall j | i <= j < |bs0| :: boxes[j] == bs0[j]
      {
        UpdateLevel(i, best0);
        i := i + 1;
      }
      ShowMerged(bs0, best0, current0, boxes);
      ClearStars();
    }
  }
}
