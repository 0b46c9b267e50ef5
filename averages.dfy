/**
 * What both RunningAverageQueue classes compute, for T = R = uint32: the
 * window is the newest values inserted, at most max_size of them, oldest
 * first; the average is the window's sum divided by its size.  The sum is
 * accumulated in C++ integers and converted to uint32 for the unsigned
 * division, so it is taken modulo 2^32.
 */
module Averages {
  import opened Bits

  /** The newest min(|history|, maxSize) values of `history`, oldest first. */
  function Newest(history: seq<uint32>, maxSize: nat): (r: seq<uint32>)
    ensures |r| <= maxSize && (|r| == |history| || |r| == maxSize) && |r| <= |history|
    ensures r == history[|history| - |r|..]
  {
    if |history| <= maxSize then history else history[|history| - maxSize..]
  }

  /** The window after push_back(t) and, when it has grown past maxSize, pop_front(). */
  function Pushed(window: seq<uint32>, t: uint32, maxSize: nat): seq<uint32>
  {
    var w := window + [t];
    if |w| > maxSize then w[1..] else w
  }

  /**
   * Pushing onto the window of a history gives the window of the history
   * with the value appended: the queue keeps exactly the newest values.
   */
  lemma {:induction false} PushedNewest(history: seq<uint32>, t: uint32, maxSize: nat)
    requires maxSize >= 1
    ensures Pushed(Newest(history, maxSize), t, maxSize) == Newest(history + [t], maxSize)
  {
    var h := history + [t];
    var w := Newest(history, maxSize) + [t];
    if |history| < maxSize {
      assert Newest(h, maxSize) == h;
    } else {
      assert Newest(h, maxSize) == h[|h| - maxSize..];
      assert w[1..] == h[|h| - maxSize..];
    }
  }

  /** std::accumulate over the window: the sum of its values. */
  function Sum(window: seq<uint32>): nat
  {
    if window == [] then 0 else Sum(window[..|window| - 1]) + window[|window| - 1]
  }

  /** The window's sum as the uint32 the division sees. */
  function Total(window: seq<uint32>): (r: uint32)
    ensures Sum(window) < U32 ==> r == Sum(window)
  {
    Sum(window) % U32
  }

  /**
   * The average getAverage() reports: the total divided by the size,
   * rounded down (unsigned division).
   */
  function Average(window: seq<uint32>): (r: uint32)
    requires 1 <= |window| < U32
    ensures r * |window| <= Total(window) < (r + 1) * |window|
  {
    var total, size := Total(window), |window|;
    var q := total / size;
    DivBounds(total, size, q);
    q
  }

  /** Integer division rounds down. */
  lemma {:induction false} DivBounds(v: nat, d: nat, q: int)
    requires d >= 1 && q == v / d
    ensures 0 <= q <= v && q * d <= v < (q + 1) * d
  {
  }

  /** The first n naturals, as the values inserted by the unit test. */
  function Upto(n: nat): (r: seq<uint32>)
    requires n <= U32
    ensures |r| == n && forall i :: 0 <= i < n ==> r[i] == i
  {
    seq(n, i requires 0 <= i < n => i as uint32)
  }

  /** 0 + 1 + ... + (n - 1) == n (n - 1) / 2. */
  lemma {:induction false} SumUpto(n: nat)
    requires n <= U32
    ensures 2 * Sum(Upto(n)) == n * (n - 1)
  {
    if n > 0 {
      assert Upto(n)[..n - 1] == Upto(n - 1);
      SumUpto(n - 1);
    }
  }
}

/**
 * RunningAverageQueue (include/RunningAverageQueue.h): a bounded window of
 * the newest values and the mean of the window, recomputed on every insert.
 */
module RunningAverageQueues {
  import opened Bits
  import opened Wrappers
  import opened Averages

  class RunningAverageQueue {
    /** m_max_size. */
    const maxSize: nat
    /** m_queue, oldest first. */
    var queue: seq<uint32>
    /** m_average. */
    var average: uint32
    /** Every value inserted so far, oldest first. */
    ghost var History: seq<uint32>

    /**
     * The window is the newest values, at most maxSize of them, and the
     * average is that of the window; 0 before the first insert.
     */
    ghost predicate Valid()
      reads this
    {
      && maxSize >= 1
      && queue == Newest(History, maxSize)
      && |queue| < U32
      && average == (if queue == [] then 0 else Average(queue))
    }

    /** The constructor for a positive max_size: an empty window and an average of 0. */
    constructor (size: nat)
      requires size >= 1
      ensures Valid() && maxSize == size && History == [] && queue == [] && average == 0
    {
      maxSize := size;
      queue := [];
      average := 0;
      History := [];
    }

    /** getAverage(). */
    function GetAverage(): (r: uint32)
      reads this
      requires Valid()
      ensures queue == [] ==> r == 0
      ensures queue != [] ==> r * |queue| <= Total(queue) < (r + 1) * |queue|
    {
      average
    }

    /**
     * insert(t): appends t, drops the oldest value when the window is
     * over maxSize, and recomputes the average.  The window's size must
     * fit the uint32 the sum is divided by.
     */
    method Insert(t: uint32)
      requires Valid() && (|queue| + 1 < U32 || maxSize < U32)
      modifies this
      ensures Valid() && History == old(History) + [t]
      ensures queue == Pushed(old(queue), t, maxSize)
      ensures |queue| <= maxSize && queue[|queue| - 1] == t
      ensures average == Average(queue)
    {
      queue := queue + [t];
      if |queue| > maxSize {
        queue := queue[1..];
      }
      average := Average(queue);
      History := History + [t];
      PushedNewest(old(History), t, maxSize);
    }
  }

  /**
   * The constructor: throws invalid_argument("Bad size") for a max_size
   * of 0, and otherwise yields an empty queue.
   */
  method Create(maxSize: nat) returns (r: Result<RunningAverageQueue>)
    ensures r.Failure? <==> maxSize == 0
    ensures r.Failure? ==> r.error == "Bad size"
    ensures r.Success? ==> fresh(r.value) && r.value.Valid() && r.value.maxSize == maxSize
    ensures r.Success? ==> r.value.queue == [] && r.value.GetAverage() == 0
  {
    if maxSize == 0 {
      return Failure("Bad size");
    }
    var q := new RunningAverageQueue(maxSize);
    r := Success(q);
  }

  /**
   * The unit test: inserting 0, 1, ..., 9 into a queue of max_size 20
   * gives the average 45 / 10 == 4.
   */
  method ZeroToNine() returns (average: uint32)
    ensures average == 4
  {
    var q := new RunningAverageQueue(20);
    var i: nat := 0;
    while i < 10
      invariant i <= 10 && q.Valid() && fresh(q) && q.maxSize == 20
      invariant q.queue == Upto(i)
    {
      q.Insert(i as uint32);
      assert Upto(i) + [i as uint32] == Upto(i + 1);
      i := i + 1;
    }
    SumUpto(10);
    average := q.GetAverage();
  }
}

/**
 * RunningAverageQueue (include/cpputil/RunningAverageQueue.h): the same
 * window and mean, plus iteration over the window, its size, an emptiness
 * test and clear().
 */
module UtilRunningAverageQueues {
  import opened Bits
  import opened Wrappers
  import opened Averages

  class RunningAverageQueue {
    /** m_max_size. */
    const maxSize: nat
    /** m_queue, oldest first. */
    var queue: seq<uint32>
    /** m_average. */
    var average: uint32
    /** The values inserted since construction or the last clear(), oldest first. */
    ghost var History: seq<uint32>

    /**
     * The window is the newest values since the last clear, at most
     * maxSize of them; while it is not empty the average is its average.
     */
    ghost predicate Valid()
      reads this
    {
      && maxSize >= 1
      && queue == Newest(History, maxSize)
      && |queue| < U32
      && (queue != [] ==> average == Average(queue))
    }

    /** The constructor for a positive max_size: an empty window and an average of 0. */
    constructor (size: nat)
      requires size >= 1
      ensures Valid() && maxSize == size && History == [] && queue == [] && average == 0
    {
      maxSize := size;
      queue := [];
      average := 0;
      History := [];
    }

    /**
     * begin() to end(): the values of the window, oldest first; they are
     * the newest values inserted since the last clear.
     */
    function Elements(): (r: seq<uint32>)
      reads this
      requires Valid()
      ensures r == Newest(History, maxSize)
    {
      queue
    }

    /** size(): never more than max_size. */
    function Size(): (r: nat)
      reads this
      requires Valid()
      ensures r <= maxSize && r == |Elements()|
      ensures r == if |History| < maxSize then |History| else maxSize
    {
      |queue|
    }

    /** empty(): true exactly when size() is 0. */
    function Empty(): (r: bool)
      reads this
      requires Valid()
      ensures r <==> Size() == 0
      ensures r <==> History == []
    {
      queue == []
    }

    /** getAverage(). */
    function GetAverage(): (r: uint32)
      reads this
      requires Valid()
      ensures queue != [] ==> r * |queue| <= Total(queue) < (r + 1) * |queue|
    {
      average
    }

    /** clear(): empties the window; the last average stays as it was. */
    method Clear()
      requires Valid()
      modifies this
      ensures Valid() && History == [] && queue == []
      ensures average == old(average)
    {
      queue := [];
      History := [];
    }

    /**
     * insert(t): appends t, drops the oldest value when the window is
     * over maxSize, and recomputes the average.  The window's size must
     * fit the uint32 the sum is divided by.
     */
    method Insert(t: uint32)
      requires Valid() && (|queue| + 1 < U32 || maxSize < U32)
      modifies this
      ensures Valid() && History == old(History) + [t]
      ensures queue == Pushed(old(queue), t, maxSize)
      ensures |queue| <= maxSize && queue[|queue| - 1] == t
      ensures average == Average(queue)
    {
      queue := queue + [t];
      if |queue| > maxSize {
        queue := queue[1..];
      }
      average := Average(queue);
      History := History + [t];
      PushedNewest(old(History), t, maxSize);
    }
  }

  /**
   * The constructor: throws invalid_argument("Bad size") for a max_size
   * of 0, and otherwise yields an empty queue.
   */
  method Create(maxSize: nat) returns (r: Result<RunningAverageQueue>)
    ensures r.Failure? <==> maxSize == 0
    ensures r.Failure? ==> r.error == "Bad size"
    ensures r.Success? ==> fresh(r.value) && r.value.Valid() && r.value.maxSize == maxSize
    ensures r.Success? ==> r.value.Empty() && r.value.average == 0
  {
    if maxSize == 0 {
      return Failure("Bad size");
    }
    var q := new RunningAverageQueue(maxSize);
    r := Success(q);
  }
}
