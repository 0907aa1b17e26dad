/**
 * The day-to-verse scheduler of a daily Bhagavad Gita mailer.
 *
 * A run counts the whole days elapsed since a fixed start date, numbers the
 * day from 1, and walks the catalog of chapter lengths with a running total
 * to find the (chapter, verse) address of that day.  Past the end of the
 * catalog the address falls back to chapter 1, verse 1.
 *
 * The lookup is stated for any sequence of chapter lengths and then
 * instantiated with the 18 chapters of the Gita (701 verses in all).
 */
module Story {

  /** Microseconds in one day: the resolution at which a Python timedelta splits whole days off. */
  const MicrosPerDay: int := 86_400_000_000

  /** Number of verses in each chapter of the Gita, chapter 1 first. */
  const GitaChapterLengths: seq<int> :=
    [47, 72, 43, 42, 29, 47, 30, 28, 34, 42, 55, 20, 35, 27, 20, 24, 28, 78]

  /** A 1-based (chapter, verse) address, the pair the lookup returns. */
  datatype VerseRef = VerseRef(chapter: int, verse: int)

  /** The address returned once the day lies beyond the catalog. */
  const Fallback: VerseRef := VerseRef(1, 1)

  // ---------------------------------------------------------------------
  // Day numbering
  // ---------------------------------------------------------------------

  /**
   * The `days` part of the time elapsed since the start date, given in
   * microseconds.  A timedelta normalises its remainder to be non-negative,
   * so this is floor division: an instant before the start date gives a
   * negative count.
   */
  function WholeDays(elapsedMicros: int): (days: int)
    ensures days * MicrosPerDay <= elapsedMicros < (days + 1) * MicrosPerDay
  {
    elapsedMicros / MicrosPerDay
  }

  /**
   * The 1-based day number of a run after `elapsedDays` whole days: day `d`
   * has `d - 1` whole days before it.  Not clamped, so only runs from the
   * start date on get a number of at least 1.
   */
  function DayNumber(elapsedDays: int): (d: int)
    ensures d - 1 == elapsedDays
    ensures d >= 1 <==> elapsedDays >= 0
  {
    elapsedDays + 1
  }

  /** The day number of a run `elapsedMicros` after the start date: day `d` is the `d`-th span of 24 hours. */
  function DayNumberAt(elapsedMicros: int): (d: int)
    ensures (d - 1) * MicrosPerDay <= elapsedMicros < d * MicrosPerDay
  {
    DayNumber(WholeDays(elapsedMicros))
  }

  /** Floor division has exactly one answer. */
  lemma WholeDaysUnique(elapsedMicros: int, days: int)
    requires days * MicrosPerDay <= elapsedMicros < (days + 1) * MicrosPerDay
    ensures WholeDays(elapsedMicros) == days
  {
  }

  /** Every run during the first day after the start date is day 1. */
  lemma StartDateIsDayOne(elapsedMicros: int)
    requires 0 <= elapsedMicros < MicrosPerDay
    ensures DayNumberAt(elapsedMicros) == 1
  {
    WholeDaysUnique(elapsedMicros, 0);
  }

  /** One more elapsed day raises the day number by exactly one. */
  lemma NextDayIsNextNumber(elapsedMicros: int)
    ensures DayNumberAt(elapsedMicros + MicrosPerDay) == DayNumberAt(elapsedMicros) + 1
  {
    var d := WholeDays(elapsedMicros);
    WholeDaysUnique(elapsedMicros + MicrosPerDay, d + 1);
  }

  /** The day number is exactly n + 1 throughout the n-th whole day after the start date. */
  lemma DayNumberOfWholeDays(n: int, withinDay: int)
    requires 0 <= withinDay < MicrosPerDay
    ensures DayNumberAt(n * MicrosPerDay + withinDay) == n + 1
  {
    WholeDaysUnique(n * MicrosPerDay + withinDay, n);
  }

  /** Later runs never get a smaller day number. */
  lemma DayNumberMonotone(earlier: int, later: int)
    requires earlier <= later
    ensures DayNumberAt(earlier) <= DayNumberAt(later)
  {
  }

  /** A run before the start date is not clamped to day 1: its day number is 0 or less. */
  lemma BeforeStartIsNotClamped(elapsedMicros: int)
    requires elapsedMicros < 0
    ensures DayNumberAt(elapsedMicros) <= 0
  {
  }

  // ---------------------------------------------------------------------
  // The chapter catalog
  // ---------------------------------------------------------------------

  /** The combined length of the first `k` chapters. */
  function Prefix(lengths: seq<int>, k: nat): (sum: int)
    requires k <= |lengths|
  {
    if k == 0 then 0 else Prefix(lengths, k - 1) + lengths[k - 1]
  }

  /** The number of verses in the whole catalog. */
  function Total(lengths: seq<int>): (total: int)
  {
    Prefix(lengths, |lengths|)
  }

  /** Every chapter has at least one verse. */
  predicate AllPositive(lengths: seq<int>)
  {
    forall i :: 0 <= i < |lengths| ==> lengths[i] > 0
  }

  /** Some chapter's cumulative length reaches `dayNum`: the lookup finds a chapter. */
  predicate Reaches(lengths: seq<int>, dayNum: int)
  {
    exists c :: 1 <= c <= |lengths| && dayNum <= Prefix(lengths, c)
  }

  /** A proper address in the catalog: a chapter that exists and a verse inside it. */
  predicate ValidRef(lengths: seq<int>, r: VerseRef)
  {
    1 <= r.chapter <= |lengths| && 1 <= r.verse <= lengths[r.chapter - 1]
  }

  /** With positive lengths, the cumulative lengths strictly increase. */
  lemma {:induction false} PrefixStrictlyIncreasing(lengths: seq<int>, i: nat, j: nat)
    requires AllPositive(lengths)
    requires i < j <= |lengths|
    ensures Prefix(lengths, i) < Prefix(lengths, j)
    decreases j
  {
    if i < j - 1 {
      PrefixStrictlyIncreasing(lengths, i, j - 1);
    }
  }

  /** With positive lengths, no cumulative length exceeds the total. */
  lemma PrefixAtMostTotal(lengths: seq<int>, k: nat)
    requires AllPositive(lengths)
    requires k <= |lengths|
    ensures Prefix(lengths, k) <= Total(lengths)
  {
    if k < |lengths| {
      PrefixStrictlyIncreasing(lengths, k, |lengths|);
    }
  }

  // ---------------------------------------------------------------------
  // Verse lookup
  // ---------------------------------------------------------------------

  /**
   * The 0-based index of the first chapter at or after `from` whose
   * cumulative length reaches `dayNum`, or |lengths| when none does.
   */
  function FirstReaching(lengths: seq<int>, dayNum: int, from: nat): (k: nat)
    requires from <= |lengths|
    ensures from <= k <= |lengths|
    ensures k < |lengths| ==> dayNum <= Prefix(lengths, k + 1)
    ensures forall c :: from < c <= k ==> Prefix(lengths, c) < dayNum
    decreases |lengths| - from
  {
    if from == |lengths| || dayNum <= Prefix(lengths, from + 1) then from
    else FirstReaching(lengths, dayNum, from + 1)
  }

  /** The chapter search has one answer: whatever index meets its description is the one it finds. */
  lemma FirstReachingUnique(lengths: seq<int>, dayNum: int, k: nat)
    requires k <= |lengths|
    requires k < |lengths| ==> dayNum <= Prefix(lengths, k + 1)
    requires forall c :: 0 < c <= k ==> Prefix(lengths, c) < dayNum
    ensures FirstReaching(lengths, dayNum, 0) == k
  {
  }

  /**
   * The address of day `dayNum`: the first chapter whose cumulative length
   * reaches the day, and the day's offset into that chapter; the fallback
   * when no chapter reaches it.
   */
  function VerseRefOf(lengths: seq<int>, dayNum: int): (r: VerseRef)
    ensures Reaches(lengths, dayNum) ==>
      && 1 <= r.chapter <= |lengths|
      && dayNum <= Prefix(lengths, r.chapter)
      && (forall c :: 1 <= c < r.chapter ==> Prefix(lengths, c) < dayNum)
      && dayNum == Prefix(lengths, r.chapter - 1) + r.verse
    ensures !Reaches(lengths, dayNum) ==> r == Fallback
  {
    var k := FirstReaching(lengths, dayNum, 0);
    if k < |lengths| then
      VerseRef(k + 1, dayNum - Prefix(lengths, k))
    else
      assert !Reaches(lengths, dayNum) by {
        forall c | 1 <= c <= |lengths| ensures Prefix(lengths, c) < dayNum {
        }
      }
      Fallback
  }

  /**
   * The lookup as the program runs it: walk the chapters keeping the
   * running total `count` of the chapters passed, and stop at the first
   * chapter that reaches the day.
   */
  method LocateVerse(lengths: seq<int>, dayNum: int) returns (r: VerseRef)
    ensures r == VerseRefOf(lengths, dayNum)
  {
    var count := 0;
    for i := 0 to |lengths|
      invariant count == Prefix(lengths, i)
      invariant forall c :: 0 < c <= i ==> Prefix(lengths, c) < dayNum
      // the program's `day_num > count`, implied by the two invariants above
      invariant i > 0 ==> count < dayNum
    {
      var length := lengths[i];
      if dayNum <= count + length {
        FirstReachingUnique(lengths, dayNum, i);
        return VerseRef(i + 1, dayNum - count);
      }
      count := count + length;
    }
    FirstReachingUnique(lengths, dayNum, |lengths|);
    return Fallback;
  }

  /** The day of an address: the chapters before it in full, plus the verse; the inverse of the lookup. */
  function DayOf(lengths: seq<int>, r: VerseRef): (dayNum: int)
    requires 1 <= r.chapter <= |lengths|
  {
    Prefix(lengths, r.chapter - 1) + r.verse
  }

  /** Every day of the catalog resolves to a chapter that exists and a verse inside it. */
  lemma VerseInRange(lengths: seq<int>, dayNum: int)
    requires 1 <= dayNum <= Total(lengths)
    ensures ValidRef(lengths, VerseRefOf(lengths, dayNum))
  {
    assert Reaches(lengths, dayNum) by {
      assert dayNum <= Prefix(lengths, |lengths|);
    }
    var r := VerseRefOf(lengths, dayNum);
    if r.chapter > 1 {
      assert Prefix(lengths, r.chapter - 1) < dayNum;
    }
  }

  /** Round trip from days: looking a day up and turning the address back gives the day. */
  lemma DayOfVerseRef(lengths: seq<int>, dayNum: int)
    requires 1 <= dayNum <= Total(lengths)
    ensures 1 <= VerseRefOf(lengths, dayNum).chapter <= |lengths|
    ensures DayOf(lengths, VerseRefOf(lengths, dayNum)) == dayNum
  {
    VerseInRange(lengths, dayNum);
  }

  /** Every proper address is the day of some day inside the catalog. */
  lemma DayOfInRange(lengths: seq<int>, r: VerseRef)
    requires AllPositive(lengths)
    requires ValidRef(lengths, r)
    ensures 1 <= DayOf(lengths, r) <= Total(lengths)
  {
    if r.chapter > 1 {
      PrefixStrictlyIncreasing(lengths, 0, r.chapter - 1);
    }
    PrefixAtMostTotal(lengths, r.chapter);
  }

  /** Round trip from addresses: the day of a proper address looks up to that address. */
  lemma VerseRefOfDay(lengths: seq<int>, r: VerseRef)
    requires AllPositive(lengths)
    requires ValidRef(lengths, r)
    ensures VerseRefOf(lengths, DayOf(lengths, r)) == r
  {
    var d := DayOf(lengths, r);
    var k := r.chapter - 1;
    forall c | 0 < c <= k ensures Prefix(lengths, c) < d {
      if c < k {
        PrefixStrictlyIncreasing(lengths, c, k);
      }
    }
    FirstReachingUnique(lengths, d, k);
  }

  /** No two days of the catalog share an address. */
  lemma LookupInjective(lengths: seq<int>, d1: int, d2: int)
    requires 1 <= d1 <= Total(lengths) && 1 <= d2 <= Total(lengths)
    requires VerseRefOf(lengths, d1) == VerseRefOf(lengths, d2)
    ensures d1 == d2
  {
    DayOfVerseRef(lengths, d1);
    DayOfVerseRef(lengths, d2);
  }

  /** Every proper address is the lookup of exactly one day of the catalog. */
  lemma LookupHitsEachVerseOnce(lengths: seq<int>, r: VerseRef)
    requires AllPositive(lengths)
    requires ValidRef(lengths, r)
    ensures exists d :: 1 <= d <= Total(lengths) && VerseRefOf(lengths, d) == r
    ensures forall d :: 1 <= d <= Total(lengths) && VerseRefOf(lengths, d) == r ==> d == DayOf(lengths, r)
  {
    var d0 := DayOf(lengths, r);
    DayOfInRange(lengths, r);
    VerseRefOfDay(lengths, r);
    forall d | 1 <= d <= Total(lengths) && VerseRefOf(lengths, d) == r ensures d == d0 {
      LookupInjective(lengths, d, d0);
    }
  }

  /** A day beyond the catalog gets the fixed fallback address. */
  lemma BeyondCatalogFallsBack(lengths: seq<int>, dayNum: int)
    requires AllPositive(lengths)
    requires dayNum > Total(lengths)
    ensures VerseRefOf(lengths, dayNum) == Fallback
  {
    forall c | 1 <= c <= |lengths| ensures Prefix(lengths, c) < dayNum {
      PrefixAtMostTotal(lengths, c);
    }
  }

  /** Any day up to the length of chapter 1, including days 0 and below, lands in chapter 1 unchanged. */
  lemma FirstChapterKeepsDay(lengths: seq<int>, dayNum: int)
    requires |lengths| > 0
    requires dayNum <= lengths[0]
    ensures VerseRefOf(lengths, dayNum) == VerseRef(1, dayNum)
  {
    FirstReachingUnique(lengths, dayNum, 0);
  }

  // ---------------------------------------------------------------------
  // The Gita catalog
  // ---------------------------------------------------------------------

  /** The Gita has 18 chapters of at least one verse each, 701 verses in all. */
  lemma GitaCatalog()
    ensures |GitaChapterLengths| == 18
    ensures AllPositive(GitaChapterLengths)
    ensures Total(GitaChapterLengths) == 701
  {
    var g := GitaChapterLengths;
    forall i | 0 <= i < |g| ensures g[i] > 0 {
    }
    assert Prefix(g, 4) == 204;
    assert Prefix(g, 8) == 338;
    assert Prefix(g, 12) == 489;
    assert Prefix(g, 17) == 623;
  }

  /** Every day from 1 to 701 names one of the 18 chapters and a verse inside it. */
  lemma GitaVerseInRange(dayNum: int)
    requires 1 <= dayNum <= 701
    ensures 1 <= VerseRefOf(GitaChapterLengths, dayNum).chapter <= 18
    ensures 1 <= VerseRefOf(GitaChapterLengths, dayNum).verse
              <= GitaChapterLengths[VerseRefOf(GitaChapterLengths, dayNum).chapter - 1]
  {
    GitaCatalog();
    VerseInRange(GitaChapterLengths, dayNum);
  }

  /** Chapter boundaries: the last verse of chapter 1, the first of chapter 2, the very last verse. */
  lemma GitaBoundaries()
    ensures VerseRefOf(GitaChapterLengths, 47) == VerseRef(1, 47)
    ensures VerseRefOf(GitaChapterLengths, 48) == VerseRef(2, 1)
    ensures VerseRefOf(GitaChapterLengths, 701) == VerseRef(18, 78)
  {
    var g := GitaChapterLengths;
    GitaCatalog();
    FirstChapterKeepsDay(g, 47);
    VerseRefOfDay(g, VerseRef(2, 1));
    VerseRefOfDay(g, VerseRef(18, 78));
  }

  /** Days past 701 get chapter 1, verse 1. */
  lemma GitaBeyondEnd(dayNum: int)
    requires dayNum > 701
    ensures VerseRefOf(GitaChapterLengths, dayNum) == Fallback
  {
    GitaCatalog();
    BeyondCatalogFallsBack(GitaChapterLengths, dayNum);
  }

  /** Over days 1 to 701 no two days share an address. */
  lemma GitaInjective(d1: int, d2: int)
    requires 1 <= d1 <= 701 && 1 <= d2 <= 701
    requires VerseRefOf(GitaChapterLengths, d1) == VerseRefOf(GitaChapterLengths, d2)
    ensures d1 == d2
  {
    GitaCatalog();
    LookupInjective(GitaChapterLengths, d1, d2);
  }

  /** Every verse of the Gita has a day from 1 to 701 that looks up to it, and only one. */
  lemma GitaEachVerseOnce(r: VerseRef)
    requires ValidRef(GitaChapterLengths, r)
    ensures 1 <= DayOf(GitaChapterLengths, r) <= 701
    ensures VerseRefOf(GitaChapterLengths, DayOf(GitaChapterLengths, r)) == r
    ensures forall d :: 1 <= d <= 701 && VerseRefOf(GitaChapterLengths, d) == r ==> d == DayOf(GitaChapterLengths, r)
  {
    GitaCatalog();
    DayOfInRange(GitaChapterLengths, r);
    VerseRefOfDay(GitaChapterLengths, r);
    LookupHitsEachVerseOnce(GitaChapterLengths, r);
  }

  /** A run before the start date gets chapter 1 with the unclamped day as its verse, which is no verse at all. */
  lemma GitaBeforeStart(dayNum: int)
    requires dayNum <= 0
    ensures VerseRefOf(GitaChapterLengths, dayNum) == VerseRef(1, dayNum)
    ensures !ValidRef(GitaChapterLengths, VerseRefOf(GitaChapterLengths, dayNum))
  {
    FirstChapterKeepsDay(GitaChapterLengths, dayNum);
  }

  // ---------------------------------------------------------------------
  // One run
  // ---------------------------------------------------------------------

  /**
   * The schedule of one run `elapsedMicros` after the start date: its day
   * number and that day's address in the Gita.
   */
  method ResolveRun(elapsedMicros: int) returns (dayNum: int, r: VerseRef)
    ensures dayNum == DayNumberAt(elapsedMicros)
    ensures r == VerseRefOf(GitaChapterLengths, dayNum)
    ensures 0 <= elapsedMicros < 701 * MicrosPerDay ==>
      1 <= dayNum <= 701 && ValidRef(GitaChapterLengths, r) && DayOf(GitaChapterLengths, r) == dayNum
  {
    dayNum := DayNumber(WholeDays(elapsedMicros));
    r := LocateVerse(GitaChapterLengths, dayNum);
    if 0 <= elapsedMicros < 701 * MicrosPerDay {
      DayNumberMonotone(0, elapsedMicros);
      StartDateIsDayOne(0);
      DayNumberMonotone(elapsedMicros, 701 * MicrosPerDay - 1);
      DayNumberOfWholeDays(700, MicrosPerDay - 1);
      GitaCatalog();
      DayOfVerseRef(GitaChapterLengths, dayNum);
      VerseInRange(GitaChapterLengths, dayNum);
    }
  }
}
