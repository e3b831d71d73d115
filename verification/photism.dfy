/** The colour-to-note classifier of src/photism/photism.js.

    The reference table (`noteMap`) is a parameter: an ordered sequence of
    note keys with their reference colours, in the order the JavaScript
    object enumerates its keys (insertion order, since no key looks like an
    array index). */
module Photism {
  import opened Wrappers

  /** A key of the reference table, such as "A". */
  type Note = string

  /** A colour sample; the channels are whatever numbers the caller passes. */
  datatype Rgb = Rgb(r: int, g: int, b: int)

  /** Every channel lies in [0, 255]. */
  predicate InByteRange(c: Rgb) {
    0 <= c.r <= 255 && 0 <= c.g <= 255 && 0 <= c.b <= 255
  }

  /** One entry of the reference table. */
  datatype Reference = Reference(note: Note, color: Rgb)

  type Table = seq<Reference>

  /** The keys of a JavaScript object are distinct. */
  predicate WellFormed(table: Table) {
    forall i, j :: 0 <= i < j < |table| ==> table[i].note != table[j].note
  }

  predicate HasNote(table: Table, n: Note) {
    exists i :: 0 <= i < |table| && table[i].note == n
  }

  /** The position of key `n` in the table, or `None` when the table has no such key. */
  function Lookup(table: Table, n: Note): (k: Option<nat>)
    ensures k.Some? ==> k.value < |table| && table[k.value].note == n
    ensures k.None? <==> !HasNote(table, n)
  {
    if |table| == 0 then None
    else if table[|table| - 1].note == n then Some(|table| - 1)
    else
      var k := Lookup(table[..|table| - 1], n);
      assert HasNote(table, n) ==> HasNote(table[..|table| - 1], n) by {
        if HasNote(table, n) {
          var i :| 0 <= i < |table| && table[i].note == n;
          assert table[..|table| - 1][i].note == n;
        }
      }
      k
  }

  lemma LookupKey(table: Table, k: nat)
    requires WellFormed(table) && k < |table|
    ensures Lookup(table, table[k].note) == Some(k)
  {
  }

  // ---------------------------------------------------------------------
  // Math.mean and the per-channel distance
  // ---------------------------------------------------------------------

  /** The running total `forEach(num => sum += num)` computes. */
  function Sum(nums: seq<int>): int {
    if |nums| == 0 then 0 else Sum(nums[..|nums| - 1]) + nums[|nums| - 1]
  }

  /** `Math.mean`: the sum divided by the count. With no arguments the
      source divides 0 by 0 and yields NaN, modelled as `None`. */
  function Mean(nums: seq<int>): (m: Option<real>)
    ensures m.Some? <==> |nums| > 0
    ensures m.Some? ==> m.value * (|nums| as real) == Sum(nums) as real
  {
    if |nums| == 0 then None else Some(Sum(nums) as real / |nums| as real)
  }

  lemma {:induction false} SumWithinBounds(nums: seq<int>, lo: int, hi: int)
    requires forall i :: 0 <= i < |nums| ==> lo <= nums[i] <= hi
    ensures lo * |nums| <= Sum(nums) <= hi * |nums|
  {
    if |nums| > 0 {
      var n := |nums| - 1;
      SumWithinBounds(nums[..n], lo, hi);
      assert lo * |nums| == lo * n + lo;
      assert hi * |nums| == hi * n + hi;
    }
  }

  /** The mean of numbers in [lo, hi] lies in [lo, hi]. */
  lemma MeanWithinBounds(nums: seq<int>, lo: int, hi: int)
    requires |nums| > 0
    requires forall i :: 0 <= i < |nums| ==> lo <= nums[i] <= hi
    ensures lo as real <= Mean(nums).value <= hi as real
  {
    SumWithinBounds(nums, lo, hi);
    var n := |nums| as real;
    var m := Mean(nums).value;
    assert (lo as real) * n <= m * n;
    assert m * n <= (hi as real) * n;
  }

  function Abs(x: int): nat {
    if x < 0 then -x else x
  }

  /** The absolute per-channel differences, reference colour first. */
  function Differences(ref: Rgb, c: Rgb): seq<int> {
    [Abs(ref.r - c.r), Abs(ref.g - c.g), Abs(ref.b - c.b)]
  }

  function ChannelSum(ref: Rgb, c: Rgb): nat {
    Abs(ref.r - c.r) + Abs(ref.g - c.g) + Abs(ref.b - c.b)
  }

  lemma SumOfDifferences(ref: Rgb, c: Rgb)
    ensures Sum(Differences(ref, c)) == ChannelSum(ref, c)
  {
    var d := Differences(ref, c);
    assert d[..2] == [d[0], d[1]];
    assert d[..2][..1] == [d[0]];
    assert d[..2][..1][..0] == [];
    assert Sum(d[..2][..1]) == d[0];
    assert Sum(d[..2]) == d[0] + d[1];
  }

  /** The "alikeness" score of a reference colour: the mean absolute channel difference. */
  function Distance(ref: Rgb, c: Rgb): (d: real)
    ensures d * 3.0 == ChannelSum(ref, c) as real
  {
    var diffs := Differences(ref, c);
    SumOfDifferences(ref, c);
    Mean(diffs).value
  }

  /** The score does not depend on which colour is the reference. */
  lemma DistanceSymmetric(x: Rgb, y: Rgb)
    ensures Distance(x, y) == Distance(y, x)
  {
    assert ChannelSum(x, y) == ChannelSum(y, x);
  }

  /** The score is never negative and is zero exactly when the colours agree. */
  lemma DistanceZero(x: Rgb, y: Rgb)
    ensures Distance(x, y) >= 0.0
    ensures Distance(x, y) == 0.0 <==> x == y
  {
  }

  /** Colours with channels in [0, 255] are at a distance in [0, 255]. */
  lemma DistanceWithinByteRange(x: Rgb, y: Rgb)
    requires InByteRange(x) && InByteRange(y)
    ensures 0.0 <= Distance(x, y) <= 255.0
  {
    var diffs := Differences(x, y);
    MeanWithinBounds(diffs, 0, 255);
    SumOfDifferences(x, y);
  }

  /** Comparing means is comparing integer channel sums. */
  lemma DistanceOrder(x: Rgb, y: Rgb, c: Rgb)
    ensures Distance(x, c) < Distance(y, c) <==> ChannelSum(x, c) < ChannelSum(y, c)
  {
  }

  // ---------------------------------------------------------------------
  // colorToNote
  // ---------------------------------------------------------------------

  /** `noteAlikeness[n]`: the score of key `n`, or `undefined` (`None`) when the table has no such key. */
  function Score(table: Table, n: Note, c: Rgb): (s: Option<real>)
    ensures s.None? <==> !HasNote(table, n)
    ensures WellFormed(table) ==> forall k :: 0 <= k < |table| && table[k].note == n ==> s == Some(Distance(table[k].color, c))
  {
    match Lookup(table, n)
    case Some(k) => Some(Distance(table[k].color, c))
    case None => None
  }

  /** The second loop of `colorToNote` from position `i` on, with `best` the
      current `mostAlikeNote`. A comparison against `undefined` is false in
      JavaScript, so a `best` missing from the table is never replaced. */
  function Scan(table: Table, c: Rgb, i: nat, best: Note): (r: Note)
    requires i <= |table|
    ensures r == best || exists j :: i <= j < |table| && table[j].note == r
    decreases |table| - i
  {
    if i == |table| then best
    else
      var next :=
        match Score(table, best, c)
        case Some(s) => if Distance(table[i].color, c) < s then table[i].note else best
        case None => best;
      Scan(table, c, i + 1, next)
  }

  /** `colorToNote(r, g, b)`: start from 'A' and move to a key only on a
      strictly smaller score. Without an 'A' key every comparison is against
      `undefined`, so the answer is 'A'. With one, the answer is a key of
      minimal score: 'A' whenever 'A' is minimal, and otherwise the first
      minimal key in table order. */
  function ColorToNote(table: Table, c: Rgb): (n: Note)
    requires WellFormed(table)
    ensures !HasNote(table, "A") ==> n == "A"
    ensures HasNote(table, "A") ==> HasNote(table, n) && Nearest(table, c, n)
    ensures HasNote(table, "A") && Nearest(table, c, "A") ==> n == "A"
    ensures HasNote(table, "A") && !Nearest(table, c, "A") ==> FirstNearest(table, c, n)
  {
    ScanFromA(table, c);
    Scan(table, c, 0, "A")
  }

  // ---------------------------------------------------------------------
  // What colorToNote computes, stated independently of the scan
  // ---------------------------------------------------------------------

  function Dist(table: Table, c: Rgb, i: nat): real
    requires i < |table|
  {
    Distance(table[i].color, c)
  }

  /** Entry `i` has a score no larger than any entry's. */
  ghost predicate NearestAt(table: Table, c: Rgb, i: int) {
    0 <= i < |table| && forall j :: 0 <= j < |table| ==> Dist(table, c, i) <= Dist(table, c, j)
  }

  /** Key `n` belongs to an entry of minimal score. */
  ghost predicate Nearest(table: Table, c: Rgb, n: Note) {
    exists i :: NearestAt(table, c, i) && table[i].note == n
  }

  /** Key `n` belongs to the first entry, in table order, of minimal score. */
  ghost predicate FirstNearest(table: Table, c: Rgb, n: Note) {
    exists i :: NearestAt(table, c, i) && table[i].note == n && forall j :: 0 <= j < i ==> !NearestAt(table, c, j)
  }

  /** What holds of the scan after the first `i` entries, `a` being the
      position of 'A' and `k` the position of the current best key. */
  ghost predicate ScanInvariant(table: Table, c: Rgb, i: nat, a: int, k: int) {
    && i <= |table| && 0 <= a < |table| && 0 <= k < |table|
    && (k == a || k < i)
    && Dist(table, c, k) <= Dist(table, c, a)
    && (forall j :: 0 <= j < i ==> Dist(table, c, k) <= Dist(table, c, j))
    && (k != a ==> Dist(table, c, k) < Dist(table, c, a))
    && (k != a ==> forall j :: 0 <= j < k ==> Dist(table, c, k) < Dist(table, c, j))
  }

  /** One step of the scan moves to the key `ScanChoice` picks. */
  lemma ScanStep(table: Table, c: Rgb, i: nat, k: nat)
    requires WellFormed(table) && i < |table| && k < |table|
    ensures Scan(table, c, i, table[k].note) == Scan(table, c, i + 1, table[ScanChoice(table, c, i, k)].note)
  {
    LookupKey(table, k);
  }

  /** One step of the scan keeps the invariant. */
  lemma ScanStepInvariant(table: Table, c: Rgb, i: nat, a: int, k: int)
    requires ScanInvariant(table, c, i, a, k) && i < |table|
    ensures ScanInvariant(table, c, i + 1, a, ScanChoice(table, c, i, k))
  {
    if Dist(table, c, i) < Dist(table, c, k) {
      forall j | 0 <= j < i + 1
        ensures Dist(table, c, i) <= Dist(table, c, j)
      {
      }
    }
  }

  /** The position of the best key after comparing entry `i` with entry `k`. */
  function ScanChoice(table: Table, c: Rgb, i: nat, k: nat): nat
    requires i < |table| && k < |table|
  {
    if Dist(table, c, i) < Dist(table, c, k) then i else k
  }

  /** The position of the key the scan from position `i` ends with, when it starts at position `k`. */
  ghost function ScanIndex(table: Table, c: Rgb, i: nat, k: nat): nat
    requires i <= |table| && k < |table|
    decreases |table| - i
  {
    if i == |table| then k else ScanIndex(table, c, i + 1, ScanChoice(table, c, i, k))
  }

  /** The scan ends with the key at the position `ScanIndex` tracks. */
  lemma {:induction false} ScanFollowsIndex(table: Table, c: Rgb, i: nat, k: nat)
    requires WellFormed(table) && i <= |table| && k < |table|
    ensures ScanIndex(table, c, i, k) < |table|
    ensures Scan(table, c, i, table[k].note) == table[ScanIndex(table, c, i, k)].note
    decreases |table| - i
  {
    if i < |table| {
      ScanStep(table, c, i, k);
      ScanFollowsIndex(table, c, i + 1, ScanChoice(table, c, i, k));
    }
  }

  /** The invariant holds at the end of the scan. */
  lemma {:induction false} ScanKeepsInvariant(table: Table, c: Rgb, i: nat, a: int, k: int)
    requires ScanInvariant(table, c, i, a, k)
    ensures ScanInvariant(table, c, |table|, a, ScanIndex(table, c, i, k))
    decreases |table| - i
  {
    if i < |table| {
      ScanStepInvariant(table, c, i, a, k);
      ScanKeepsInvariant(table, c, i + 1, a, ScanChoice(table, c, i, k));
    }
  }

  /** A best key missing from the table is never replaced. */
  lemma {:induction false} ScanKeepsMissing(table: Table, c: Rgb, i: nat, best: Note)
    requires i <= |table| && !HasNote(table, best)
    ensures Scan(table, c, i, best) == best
    decreases |table| - i
  {
    if i < |table| {
      ScanKeepsMissing(table, c, i + 1, best);
    }
  }

  /** What the scan from 'A' over the whole table returns. */
  lemma ScanFromA(table: Table, c: Rgb)
    requires WellFormed(table)
    ensures !HasNote(table, "A") ==> Scan(table, c, 0, "A") == "A"
    ensures HasNote(table, "A") ==> HasNote(table, Scan(table, c, 0, "A")) && Nearest(table, c, Scan(table, c, 0, "A"))
    ensures HasNote(table, "A") && Nearest(table, c, "A") ==> Scan(table, c, 0, "A") == "A"
    ensures HasNote(table, "A") && !Nearest(table, c, "A") ==> FirstNearest(table, c, Scan(table, c, 0, "A"))
  {
    if HasNote(table, "A") {
      ScanFromANearest(table, c);
    } else {
      ScanKeepsMissing(table, c, 0, "A");
    }
  }

  lemma ScanFromANearest(table: Table, c: Rgb)
    requires WellFormed(table) && HasNote(table, "A")
    ensures HasNote(table, Scan(table, c, 0, "A"))
    ensures Nearest(table, c, Scan(table, c, 0, "A"))
    ensures Nearest(table, c, "A") ==> Scan(table, c, 0, "A") == "A"
    ensures !Nearest(table, c, "A") ==> FirstNearest(table, c, Scan(table, c, 0, "A"))
  {
    var a := Lookup(table, "A").value;
    assert ScanInvariant(table, c, 0, a, a);
    ScanKeepsInvariant(table, c, 0, a, a);
    ScanFollowsIndex(table, c, 0, a);
    var k := ScanIndex(table, c, 0, a);
    assert NearestAt(table, c, k);
    if Nearest(table, c, "A") {
      var i :| NearestAt(table, c, i) && table[i].note == "A";
      assert i == a;
    } else {
      forall j | 0 <= j < k
        ensures !NearestAt(table, c, j)
      {
        assert Dist(table, c, k) < Dist(table, c, j);
      }
    }
  }

  /** The reference colour of a key is classified as that key, provided the
      reference colours are pairwise distinct. */
  lemma ColorToNoteOwnColor(table: Table, k: nat)
    requires WellFormed(table) && HasNote(table, "A") && k < |table|
    requires forall i, j :: 0 <= i < j < |table| ==> table[i].color != table[j].color
    ensures ColorToNote(table, table[k].color) == table[k].note
  {
    var c := table[k].color;
    assert Dist(table, c, k) == 0.0;
    var n := ColorToNote(table, c);
    var i :| NearestAt(table, c, i) && table[i].note == n;
    assert Dist(table, c, i) == 0.0;
    assert table[i].color == c;
    assert i == k;
  }
}
