/**
 * The spinner clock: the constructor picks a spinner definition (a custom
 * object, a named entry of the spinner table, or the platform default),
 * refuses one whose `frames` property is missing or falsy (an empty array
 * passes), and builds a closure over a counter that
 * is pre-incremented on every `frame()` call.
 */
module Spinner {
  import opened Wrappers
  import opened Text

  /** A spinner definition; either property may be missing. */
  datatype SpinnerSpec = SpinnerSpec(frames: Option<seq<String>>, interval: Option<int>)

  /** The `spinner` option: absent, the name of a table entry, or a spinner object. */
  datatype SpinnerOption = Unset | ByName(name: String) | Custom(spec: SpinnerSpec)

  /** "spinner must define 'frames'" */
  datatype ConfigError = MissingFrames

  /** What the clock needs once a definition has been accepted. */
  datatype Clock = Clock(frames: seq<String>, interval: int)

  const DefaultInterval: int := 50

  /**
   * `(typeof sp === 'object' ? sp : table[sp]) || fallback`: a spinner object
   * is used as given, a name is looked up in the table, and anything that
   * yields no definition falls back to the platform default.
   */
  function Choose(opt: SpinnerOption, table: map<String, SpinnerSpec>, fallback: SpinnerSpec): (spec: SpinnerSpec)
    ensures opt.Custom? ==> spec == opt.spec
    ensures opt.ByName? && opt.name in table ==> spec == table[opt.name]
    ensures opt.Unset? || (opt.ByName? && opt.name !in table) ==> spec == fallback
  {
    match opt
    case Custom(spec) => spec
    case ByName(name) => if name in table then table[name] else fallback
    case Unset => fallback
  }

  /** `spinner.interval || 50`: a missing or zero interval means 50 ms. */
  function Interval(configured: Option<int>): (ms: int)
    ensures ms != 0
    ensures configured.Some? && configured.value != 0 ==> ms == configured.value
    ensures configured.None? || configured.value == 0 ==> ms == DefaultInterval
  {
    match configured
    case Some(v) => if v != 0 then v else DefaultInterval
    case None => DefaultInterval
  }

  /**
   * The constructor's spinner set-up: it fails exactly when the chosen
   * definition has no `frames` property (missing or falsy; an empty array
   * is accepted); otherwise the clock runs over those frames
   * at the configured (or default) interval.
   */
  function Resolve(opt: SpinnerOption, table: map<String, SpinnerSpec>, fallback: SpinnerSpec): (r: Result<Clock, ConfigError>)
    ensures r.Failure? <==> Choose(opt, table, fallback).frames.None?
    ensures r.Success? ==> r.value.frames == Choose(opt, table, fallback).frames.value
    ensures r.Success? ==> r.value.interval == Interval(Choose(opt, table, fallback).interval) != 0
  {
    var spec := Choose(opt, table, fallback);
    match spec.frames
    case None => Failure(MissingFrames)
    case Some(frames) => Success(Clock(frames, Interval(spec.interval)))
  }

  /**
   * How a template literal shows a missing array element: with an empty frames
   * array the index `i % 0` is `NaN`, the lookup yields `undefined`, and that is the text.
   */
  const Undefined: String := "undefined"

  /**
   * The glyph shown after `calls` calls of `frame()`: one of the frames,
   * chosen by the call count modulo their number, or `Undefined` when the
   * array is empty.
   */
  function FrameAt(frames: seq<String>, calls: nat): (glyph: String)
    ensures |frames| > 0 ==> glyph in frames && glyph == frames[calls % |frames|]
    ensures |frames| == 0 ==> glyph == Undefined
  {
    if |frames| == 0 then Undefined else frames[calls % |frames|]
  }

  /** The spinner is periodic: one full round of calls brings back the same glyph. */
  lemma FrameCycle(frames: seq<String>, calls: nat)
    ensures FrameAt(frames, calls + |frames|) == FrameAt(frames, calls)
  {
    var n := |frames|;
    if n > 0 {
      var q, r := calls / n, calls % n;
      assert calls + n == (q + 1) * n + r;
      ModUnique(calls + n, n, q + 1, r);
    }
  }

  /** The remainder is the `r` of any decomposition `a == q * n + r` with `0 <= r < n`. */
  lemma ModUnique(a: int, n: nat, q: int, r: int)
    requires n > 0 && 0 <= r < n && a == q * n + r
    ensures a % n == r
  {
    var q', r' := a / n, a % n;
    assert q' * n + r' == q * n + r;
    if q' > q {
      assert (q' - q) * n == q' * n - q * n;
      MulAtLeast(q' - q, n);
    } else if q > q' {
      assert (q - q') * n == q * n - q' * n;
      MulAtLeast(q - q', n);
    }
  }

  lemma {:induction false} MulAtLeast(d: nat, n: nat)
    requires d >= 1
    ensures d * n >= n
  {
    if d > 1 {
      MulAtLeast(d - 1, n);
      assert d * n == (d - 1) * n + n;
    }
  }

  /** The `_spinner` object: the frames, the interval and the captured counter `i`. */
  class SpinnerClock {
    const frames: seq<String>
    const interval: int
    var i: nat

    constructor (clock: Clock)
      ensures frames == clock.frames && interval == clock.interval && i == 0
    {
      frames := clock.frames;
      interval := clock.interval;
      i := 0;
    }

    /** `frame()`: bump the counter first, then index by it modulo the frame count. */
    method Frame() returns (glyph: String)
      modifies this`i
      ensures i == old(i) + 1
      ensures glyph == FrameAt(frames, i)
    {
      i := i + 1;
      if |frames| == 0 {
        glyph := Undefined;
      } else {
        glyph := frames[i % |frames|];
      }
    }
  }
}
