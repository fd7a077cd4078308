/** The date validator of lab 4, task 2 (`task2_dates.hpp`).

    `IsValidDate` checks a day/month/year triple against the Gregorian
    calendar for years 1 to 9999, using a table of month lengths whose
    February entry becomes 29 in a leap year.  The single-threaded check
    keeps the invalid dates in input order.  The multi-threaded check cuts
    the input into `num_threads` chunks of `size / num_threads` dates, the
    last chunk taking the remainder; each worker filters its chunk and
    appends the result to the shared vector under a mutex, so the chunks'
    results arrive in whatever order the workers finish.  That order is a
    parameter here: a sequence of thread indices, one per worker. */
module Dates {
  datatype Date = Date(day: int, month: int, year: int)

  /** `is_leap_year`.  The source's `%` truncates toward zero, Dafny's does
      not, but a remainder is 0 under one exactly when it is 0 under the
      other, and only `== 0` and `!= 0` tests are made. */
  predicate IsLeapYear(year: int)
  {
    (year % 4 == 0 && year % 100 != 0) || year % 400 == 0
  }

  /** C++ `%` on `int`: the remainder truncates toward zero, so it takes
      the sign of the dividend. */
  function CppRem(a: int, b: int): (r: int)
    requires b > 0
    ensures -b < r < b && (a >= 0 ==> r >= 0) && (a < 0 ==> r <= 0)
  {
    if a >= 0 then a % b else -((-a) % b)
  }

  /** Euclidean division is unique: a remainder in `[0, b)` is `a % b`. */
  lemma ModUnique(a: int, b: int, k: int, r: int)
    requires b > 0 && 0 <= r < b && a == b * k + r
    ensures a % b == r
  {
    var d := k - a / b;
    assert b * d == a % b - r;
  }

  /** A remainder is zero under C++ `%` exactly when it is under Dafny's. */
  lemma CppRemZero(a: int, b: int)
    requires b > 0
    ensures CppRem(a, b) == 0 <==> a % b == 0
  {
    if a < 0 {
      if (-a) % b == 0 {
        ModUnique(a, b, -((-a) / b), 0);
      }
      if a % b == 0 {
        ModUnique(-a, b, -(a / b), 0);
      }
    }
  }

  /** `is_leap_year` as written, with C++'s truncating `%`, is the rule
      above for every year, negative ones included. */
  lemma LeapYearAsWritten(year: int)
    ensures IsLeapYear(year) <==>
      (CppRem(year, 4) == 0 && CppRem(year, 100) != 0) || CppRem(year, 400) == 0
  {
    CppRemZero(year, 4);
    CppRemZero(year, 100);
    CppRemZero(year, 400);
  }

  /** The month-length table of `is_valid_date`, February patched to 29 in
      a leap year. */
  function MonthTable(year: int): (t: seq<int>)
    ensures |t| == 12
  {
    var days := [31, 28, 31, 30, 31, 30, 31, 31, 30, 31, 30, 31];
    if IsLeapYear(year) then days[1 := 29] else days
  }

  /** `is_valid_date`: the year, then the month, then the day against the
      table. */
  predicate IsValidDate(date: Date)
  {
    if date.year < 1 || date.year > 9999 then false
    else if date.month < 1 || date.month > 12 then false
    else if date.day < 1 || date.day > MonthTable(date.year)[date.month - 1] then false
    else true
  }

  /** The Gregorian month lengths stated independently of the table:
      thirty days in April, June, September and November, February 28 or
      29, the rest 31. */
  function MonthLength(month: int, year: int): (n: int)
    requires 1 <= month <= 12
  {
    if month == 4 || month == 6 || month == 9 || month == 11 then 30
    else if month == 2 then (if IsLeapYear(year) then 29 else 28)
    else 31
  }

  /** A date is valid exactly when its year is in 1..9999, its month in
      1..12 and its day between 1 and that month's length. */
  lemma ValidDateMeans(date: Date)
    ensures IsValidDate(date) <==>
      1 <= date.year <= 9999 && 1 <= date.month <= 12 &&
      1 <= date.day <= MonthLength(date.month, date.year)
  {
    if 1 <= date.month <= 12 {
      assert MonthTable(date.year)[date.month - 1] == MonthLength(date.month, date.year);
    }
  }

  /** Days in the first `months` months of a year. */
  function DaysBefore(months: nat, year: int): (n: int)
    requires months <= 12
    decreases months
  {
    if months == 0 then 0 else DaysBefore(months - 1, year) + MonthLength(months, year)
  }

  /** The table describes a year of 365 days, 366 in a leap year. */
  lemma YearLength(year: int)
    ensures DaysBefore(12, year) == if IsLeapYear(year) then 366 else 365
  {
  }

  /** Leap years repeat every 400 years. */
  lemma LeapCycle(year: int)
    ensures IsLeapYear(year + 400) <==> IsLeapYear(year)
  {
    assert (year + 400) % 4 == year % 4;
    assert (year + 400) % 100 == year % 100;
    assert (year + 400) % 400 == year % 400;
  }

  /** 29 February: valid exactly in the leap years 1..9999. */
  lemma LeapDay(year: int)
    ensures IsValidDate(Date(29, 2, year)) <==> 1 <= year <= 9999 && IsLeapYear(year)
  {
  }

  // ---------------------------------------------------------------------
  // Filtering

  /** The invalid dates of a sequence, in their order. */
  function Invalid(dates: seq<Date>): (r: seq<Date>)
    ensures |r| <= |dates|
    decreases |dates|
  {
    if dates == [] then [] else Keep(dates[0]) + Invalid(dates[1..])
  }

  /** One date through the filter. */
  function Keep(d: Date): (r: seq<Date>)
  {
    if IsValidDate(d) then [] else [d]
  }

  /** The filter keeps exactly the invalid dates. */
  lemma {:induction false} InvalidMeans(dates: seq<Date>, d: Date)
    ensures d in Invalid(dates) <==> d in dates && !IsValidDate(d)
    decreases |dates|
  {
    if dates != [] {
      InvalidMeans(dates[1..], d);
      assert dates == [dates[0]] + dates[1..];
    }
  }

  /** Filtering distributes over concatenation. */
  lemma {:induction false} InvalidAppend(xs: seq<Date>, ys: seq<Date>)
    ensures Invalid(xs + ys) == Invalid(xs) + Invalid(ys)
    decreases |xs|
  {
    if xs != [] {
      assert (xs + ys)[0] == xs[0];
      assert (xs + ys)[1..] == xs[1..] + ys;
      InvalidAppend(xs[1..], ys);
      calc {
        Invalid(xs + ys);
        Keep(xs[0]) + Invalid(xs[1..] + ys);
        Keep(xs[0]) + (Invalid(xs[1..]) + Invalid(ys));
      }
    } else {
      assert xs + ys == ys;
    }
  }

  /** Filtering the dates `start` to `end - 1`, the loop of
      `validate_dates_worker` (and, over the whole input, of
      `validate_dates_single_thread`). */
  method FilterRange(dates: seq<Date>, start: nat, end: nat) returns (r: seq<Date>)
    requires start <= end <= |dates|
    ensures r == Invalid(dates[start..end])
  {
    r := [];
    var i := start;
    while i < end
      invariant start <= i <= end
      invariant r == Invalid(dates[start..i])
    {
      assert dates[start..i + 1] == dates[start..i] + [dates[i]];
      InvalidAppend(dates[start..i], [dates[i]]);
      assert Invalid([dates[i]]) == Keep(dates[i]);
      if !IsValidDate(dates[i]) {
        r := r + [dates[i]];
      }
      i := i + 1;
    }
  }

  /** `validate_dates_single_thread`. */
  method ValidateSingleThread(dates: seq<Date>) returns (r: seq<Date>)
    ensures r == Invalid(dates)
  {
    r := FilterRange(dates, 0, |dates|);
    assert dates[0..|dates|] == dates;
  }

  // ---------------------------------------------------------------------
  // Chunking

  /** Worker `i`'s half-open range `[start, end)` for `size` dates and
      `threads` workers: chunks of `size / threads`, the last one running
      to the end.  `ChunksPartition` states how the chunks tile the
      input. */
  function ChunkStart(size: nat, threads: nat, i: nat): nat
    requires threads >= 1
  {
    i * (size / threads)
  }

  /** Worker `i`'s end index: the last worker runs to `size`, taking the
      remainder; see `ChunksPartition`. */
  function ChunkEnd(size: nat, threads: nat, i: nat): nat
    requires threads >= 1
  {
    if i == threads - 1 then size else (i + 1) * (size / threads)
  }


  /** The chunks lie within the input, each ends where the next starts,
      the first starts at 0 and the last ends at `size`. */
  lemma ChunksPartition(size: nat, threads: nat, i: nat)
    requires threads >= 1 && i < threads
    ensures ChunkStart(size, threads, i) <= ChunkEnd(size, threads, i) <= size
    ensures i == 0 ==> ChunkStart(size, threads, i) == 0
    ensures i + 1 < threads ==> ChunkEnd(size, threads, i) == ChunkStart(size, threads, i + 1)
    ensures i + 1 == threads ==> ChunkEnd(size, threads, i) == size
  {
    var c := size / threads;
    assert c * threads <= size;
    if i + 1 < threads {
      assert (i + 1) * c <= threads * c by {
        MulMono(i + 1, threads, c);
      }
    } else {
      assert i * c <= threads * c by {
        MulMono(i, threads, c);
      }
    }
  }

  lemma MulMono(a: nat, b: nat, c: nat)
    requires a <= b
    ensures a * c <= b * c
  {
  }

  /** Worker `i`'s local result; an index with no worker contributes
      nothing. */
  function ChunkResult(dates: seq<Date>, threads: nat, i: nat): (r: seq<Date>)
  {
    if i >= threads then []
    else
      ChunksPartition(|dates|, threads, i);
      Invalid(dates[ChunkStart(|dates|, threads, i)..ChunkEnd(|dates|, threads, i)])
  }

  /** The parts `f(order[0])`, `f(order[1])`, ... appended in turn. */
  function ConcatMap<T>(f: nat -> seq<T>, order: seq<nat>): (r: seq<T>)
    decreases |order|
  {
    if order == [] then [] else ConcatMap(f, order[..|order| - 1]) + f(order[|order| - 1])
  }

  /** The shared vector after the workers named in `order` have appended
      their results, in that order. */
  function Gather(dates: seq<Date>, threads: nat, order: seq<nat>): (r: seq<Date>)
  {
    ConcatMap(i => ChunkResult(dates, threads, i), order)
  }

  /** `0, 1, ..., n - 1`. */
  function Range(n: nat): (r: seq<nat>)
    ensures |r| == n && forall k | 0 <= k < n :: r[k] == k
  {
    seq(n, k => k)
  }

  /** `validate_dates_multi_thread`, with `order` the order in which the
      workers take the mutex.  A negative `num_threads` starts no worker;
      0 divides by zero in the source and is excluded. */
  function ValidateMultiThread(dates: seq<Date>, threads: int, order: seq<nat>): (r: seq<Date>)
    requires threads != 0
    requires threads > 0 ==> multiset(order) == multiset(Range(threads))
    ensures threads < 0 ==> r == []
    ensures threads > 0 ==> multiset(r) == multiset(Invalid(dates))
  {
    if threads < 0 then []
    else
      var r := Gather(dates, threads, order);
      assert multiset(r) == multiset(Invalid(dates)) by {
        ConcatMapPermutes(i => ChunkResult(dates, threads, i), order, Range(threads));
        GatherInOrder(dates, threads, threads);
        assert dates[..|dates|] == dates;
      }
      r
  }

  /** Workers finishing in index order give exactly the single-threaded
      result: the first `k` chunks cover the first `ChunkEnd(k - 1)`
      dates. */
  lemma {:induction false} GatherInOrder(dates: seq<Date>, threads: nat, k: nat)
    requires threads >= 1 && 1 <= k <= threads
    ensures Gather(dates, threads, Range(k)) == Invalid(dates[..ChunkEnd(|dates|, threads, k - 1)])
  {
    var n := |dates|;
    ChunksPartition(n, threads, k - 1);
    var s, e := ChunkStart(n, threads, k - 1), ChunkEnd(n, threads, k - 1);
    GatherStep(dates, threads, k);
    if k == 1 {
      assert dates[..e] == dates[s..e];
    } else {
      GatherInOrder(dates, threads, k - 1);
      ChunksPartition(n, threads, k - 2);
      PrefixSplit(dates, s, e);
    }
  }

  /** One more worker in index order appends its chunk's result. */
  lemma GatherStep(dates: seq<Date>, threads: nat, k: nat)
    requires threads >= 1 && 1 <= k <= threads
    ensures Gather(dates, threads, Range(k)) ==
      Gather(dates, threads, Range(k - 1)) + ChunkResult(dates, threads, k - 1)
  {
    assert Range(k)[..k - 1] == Range(k - 1);
  }

  /** Filtering a prefix is filtering its two halves. */
  lemma PrefixSplit(dates: seq<Date>, s: nat, e: nat)
    requires s <= e <= |dates|
    ensures Invalid(dates[..e]) == Invalid(dates[..s]) + Invalid(dates[s..e])
  {
    assert dates[..e] == dates[..s] + dates[s..e];
    InvalidAppend(dates[..s], dates[s..e]);
  }

  lemma MultiThreadInOrder(dates: seq<Date>, threads: nat)
    requires threads >= 1
    ensures ValidateMultiThread(dates, threads, Range(threads)) == Invalid(dates)
  {
    GatherInOrder(dates, threads, threads);
    assert dates[..|dates|] == dates;
  }

  /** Appending parts depends on their order only up to permutation: the
      same elements, as many times each. */
  lemma {:induction false} ConcatMapPermutes<T>(f: nat -> seq<T>, a: seq<nat>, b: seq<nat>)
    requires multiset(a) == multiset(b)
    ensures multiset(ConcatMap(f, a)) == multiset(ConcatMap(f, b))
    decreases |a|
  {
    if a != [] {
      var last := a[|a| - 1];
      assert a == a[..|a| - 1] + [last];
      assert last in multiset(b);
      var j :| 0 <= j < |b| && b[j] == last;
      var b' := b[..j] + b[j + 1..];
      assert b == b[..j] + [last] + b[j + 1..];
      assert multiset(a[..|a| - 1]) == multiset(a) - multiset{last};
      assert multiset(b') == multiset(b) - multiset{last};
      ConcatMapPermutes(f, a[..|a| - 1], b');
      ConcatMapSplit(f, b[..j], b[j + 1..], last);
    }
  }

  /** Moving one part to the end keeps the multiset. */
  lemma ConcatMapSplit<T>(f: nat -> seq<T>, xs: seq<nat>, ys: seq<nat>, t: nat)
    ensures multiset(ConcatMap(f, xs + [t] + ys)) == multiset(ConcatMap(f, xs + ys)) + multiset(f(t))
  {
    ConcatMapAppend(f, xs + [t], ys);
    ConcatMapAppend(f, xs, ys);
    ConcatMapAppend(f, xs, [t]);
    assert ConcatMap(f, [t]) == f(t) by {
      assert [t][..0] == [];
    }
  }

  lemma {:induction false} ConcatMapAppend<T>(f: nat -> seq<T>, xs: seq<nat>, ys: seq<nat>)
    ensures ConcatMap(f, xs + ys) == ConcatMap(f, xs) + ConcatMap(f, ys)
    decreases |ys|
  {
    if ys == [] {
      assert xs + ys == xs;
    } else {
      var ys', t := ys[..|ys| - 1], ys[|ys| - 1];
      assert (xs + ys)[..|xs + ys| - 1] == xs + ys';
      assert (xs + ys)[|xs + ys| - 1] == t;
      ConcatMapAppend(f, xs, ys');
    }
  }

  /** Whatever order the workers take the mutex in, the multi-threaded
      check finds the same invalid dates as the single-threaded one, each
      as many times, so the same count. */
  lemma MultiThreadSameDates(dates: seq<Date>, threads: nat, order: seq<nat>)
    requires threads >= 1 && multiset(order) == multiset(Range(threads))
    ensures multiset(ValidateMultiThread(dates, threads, order)) == multiset(Invalid(dates))
    ensures |ValidateMultiThread(dates, threads, order)| == |Invalid(dates)|
  {
    ConcatMapPermutes(i => ChunkResult(dates, threads, i), order, Range(threads));
    MultiThreadInOrder(dates, threads);
    assert |multiset(ValidateMultiThread(dates, threads, order))| == |multiset(Invalid(dates))|;
  }
}
