/**
  Value-level specification of the carousel in js/hero-rotator.js: index
  arithmetic with JavaScript's `%`, the rendered view, and the pause events.
  The class in rotator.dfy is proved against these definitions.
 */
module Carousel {

  // ---------------------------------------------------------------------------
  // Index arithmetic
  // ---------------------------------------------------------------------------

  /** JavaScript's integer division truncated toward zero, for a positive divisor. */
  function TruncatedQuotient(a: int, b: int): int
    requires b > 0
  {
    if a >= 0 then a / b else -((-a) / b)
  }

  /** JavaScript's `a % b` on integers for a positive divisor: the remainder of
      division truncated toward zero, so it takes the sign of the dividend. */
  function JsRemainder(a: int, b: int): (r: int)
    requires b > 0
    ensures -b < r < b
    ensures a >= 0 ==> r >= 0
    ensures a <= 0 ==> r <= 0
    ensures a == TruncatedQuotient(a, b) * b + r
  {
    if a >= 0 then a % b else -((-a) % b)
  }

  /** Division with remainder is unique: a remainder in [0, n) is `a % n`. */
  lemma ModUnique(a: int, n: int, q: int, r: int)
    requires n > 0 && a == q * n + r && 0 <= r < n
    ensures a % n == r
  {
    var q', r' := a / n, a % n;
    assert (q - q') * n == r' - r;
    if q > q' {
      MulAtLeast(q - q', n);
    } else if q < q' {
      MulAtLeast(q' - q, n);
    }
  }

  lemma MulAtLeast(x: int, n: int)
    requires x >= 1 && n > 0
    ensures x * n >= n
  {
  }

  /** Adding one to a number moves its remainder one step around the cycle. */
  lemma ModSuccessor(a: int, n: int)
    requires n > 0
    ensures (a + 1) % n == if a % n == n - 1 then 0 else a % n + 1
  {
    var q, r := a / n, a % n;
    if r == n - 1 {
      assert a + 1 == (q + 1) * n + 0;
      ModUnique(a + 1, n, q + 1, 0);
    } else {
      ModUnique(a + 1, n, q, r + 1);
    }
  }

  /** `(index + images.length) % images.length`, the normalisation in goToSlide. */
  function WrapIndex(index: int, n: int): (r: int)
    requires n > 0
    ensures -n < r < n
    ensures index >= -n ==> r >= 0
  {
    JsRemainder(index + n, n)
  }

  /** For every index the callers can pass (at least -n), the wrapped index is
      in range and agrees with the mathematical (Euclidean) remainder. */
  lemma WrapIndexInRange(index: int, n: int)
    requires n > 0 && index >= -n
    ensures 0 <= WrapIndex(index, n) < n
    ensures WrapIndex(index, n) == index % n
  {
    var r := WrapIndex(index, n);
    var q := TruncatedQuotient(index + n, n);
    assert index == (q - 1) * n + r;
    ModUnique(index, n, q - 1, r);
  }

  /** Below -n the normalisation no longer stays in range: with two or more
      slides, index -n-1 wraps to -1, which names no slide. */
  lemma WrapIndexBelowRange(n: int)
    requires n >= 2
    ensures WrapIndex(-n - 1, n) == -1
  {
  }

  /** The index nextSlide passes on: `currentIndex + 1`, normalised. */
  function NextIndex(i: int, n: int): (r: int)
    requires n > 0
    ensures 0 <= i < n ==> 0 <= r < n
  {
    WrapIndex(i + 1, n)
  }

  /** The index prevSlide passes on: `currentIndex - 1`, normalised. */
  function PrevIndex(i: int, n: int): (r: int)
    requires n > 0
    ensures 0 <= i < n ==> 0 <= r < n
  {
    WrapIndex(i - 1, n)
  }

  lemma NextIndexSpec(i: int, n: int)
    requires 0 <= i < n
    ensures 0 <= NextIndex(i, n) < n
    ensures NextIndex(i, n) == if i == n - 1 then 0 else i + 1
  {
    if i == n - 1 {
      ModUnique(i + 1 + n, n, 2, 0);
    } else {
      ModUnique(i + 1 + n, n, 1, i + 1);
    }
  }

  lemma PrevIndexSpec(i: int, n: int)
    requires 0 <= i < n
    ensures 0 <= PrevIndex(i, n) < n
    ensures PrevIndex(i, n) == if i == 0 then n - 1 else i - 1
  {
    ModUnique(i - 1 + n, n, if i == 0 then 0 else 1, if i == 0 then n - 1 else i - 1);
  }

  /** prevSlide undoes nextSlide, and nextSlide undoes prevSlide. */
  lemma PrevAfterNext(i: int, n: int)
    requires 0 <= i < n
    ensures PrevIndex(NextIndex(i, n), n) == i
    ensures NextIndex(PrevIndex(i, n), n) == i
  {
    NextIndexSpec(i, n);
    PrevIndexSpec(i, n);
    PrevIndexSpec(NextIndex(i, n), n);
    NextIndexSpec(PrevIndex(i, n), n);
  }

  /** The index after `k` consecutive nextSlide calls. */
  function Advance(i: int, n: int, k: nat): int
    requires n > 0
  {
    if k == 0 then i else NextIndex(Advance(i, n, k - 1), n)
  }

  lemma {:induction false} AdvanceIsAddition(i: int, n: int, k: nat)
    requires 0 <= i < n
    ensures Advance(i, n, k) == (i + k) % n
  {
    if k > 0 {
      AdvanceIsAddition(i, n, k - 1);
      ModSuccessor(i + k - 1, n);
      NextIndexSpec(Advance(i, n, k - 1), n);
    }
  }

  /** n consecutive nextSlide calls return to the starting slide. */
  lemma FullCycle(i: int, n: int)
    requires 0 <= i < n
    ensures Advance(i, n, n) == i
  {
    AdvanceIsAddition(i, n, n);
    ModUnique(i + n, n, 1, i);
  }

  // ---------------------------------------------------------------------------
  // The rendered view
  // ---------------------------------------------------------------------------

  /** The value render assigns to the hero's `style.backgroundImage`. */
  function BackgroundFor(image: string): (css: string)
    ensures |css| == |image| + 5 && css[4..|css| - 1] == image
  {
    "url(" + image + ")"
  }

  /** The "active" flag of each of the n dots when slide k is shown. */
  function ActiveFlags(n: nat, k: int): (flags: seq<bool>)
    ensures |flags| == n
    ensures forall j :: 0 <= j < n ==> (flags[j] <==> j == k)
  {
    seq(n, j => j == k)
  }

  function CountActive(flags: seq<bool>): nat
  {
    if flags == [] then 0
    else CountActive(flags[..|flags| - 1]) + (if flags[|flags| - 1] then 1 else 0)
  }

  lemma {:induction false} CountActiveFlags(n: nat, k: int)
    ensures CountActive(ActiveFlags(n, k)) == if 0 <= k < n then 1 else 0
  {
    if n > 0 {
      CountActiveFlags(n - 1, k);
      assert ActiveFlags(n, k)[..n - 1] == ActiveFlags(n - 1, k);
    }
  }

  /** Exactly one dot is active, and it is the dot of the shown slide. */
  lemma ExactlyOneActive(n: nat, k: int)
    requires 0 <= k < n
    ensures CountActive(ActiveFlags(n, k)) == 1
    ensures ActiveFlags(n, k)[k]
    ensures forall j :: 0 <= j < n && ActiveFlags(n, k)[j] ==> j == k
  {
    CountActiveFlags(n, k);
  }

  // ---------------------------------------------------------------------------
  // Pause gating
  // ---------------------------------------------------------------------------

  /** The four listeners on the hero that set `isPaused`. */
  datatype PauseEvent = MouseEnter | MouseLeave | FocusIn | FocusOut

  /** The value a listener assigns to `isPaused`. */
  predicate PausesOn(e: PauseEvent): (paused: bool)
    ensures paused <==> e in {MouseEnter, FocusIn}
  {
    match e
    case MouseEnter => true
    case MouseLeave => false
    case FocusIn => true
    case FocusOut => false
  }

  /** `isPaused` after the events in order, starting from `paused`. */
  function PausedAfter(paused: bool, events: seq<PauseEvent>): bool
    decreases events
  {
    if events == [] then paused else PausedAfter(PausesOn(events[0]), events[1..])
  }

  /** The last event wins: the flag is not a counter of overlapping hover and focus. */
  lemma {:induction false} LastEventWins(paused: bool, events: seq<PauseEvent>)
    requires events != []
    ensures PausedAfter(paused, events) == PausesOn(events[|events| - 1])
    decreases events
  {
    if |events| > 1 {
      LastEventWins(PausesOn(events[0]), events[1..]);
    }
  }
}
