/**
 The microphone worklet that thins the input to 16 kHz: a cursor advances by one per
 input sample and yields an output sample whenever it passes `step`, the ratio of
 the rates; output is posted in frames of 1600 samples.
 */
module Downsampler {
  import opened Prelude
  import Products

  const TARGET_RATE := 16000
  const FRAME_SAMPLES := 1600

  function Clamp1(x: real): real {
    if x > 1.0 then 1.0 else if x < -1.0 then -1.0 else x
  }

  function Truncate(r: real): int {
    if r >= 0.0 then r.Floor else -((-r).Floor)
  }

  /** The conversion of storing into an `Int16Array`: truncate, then wrap to 16 bits. */
  function ToInt16(r: real): (n: int)
    ensures -0x8000 <= n < 0x8000
  {
    var t := (Truncate(r) + 0x8000) % 0x1_0000;
    t - 0x8000
  }

  function Sample(x: real): int {
    var s := Clamp1(x);
    ToInt16(if s < 0.0 then s * 32768.0 else s * 32767.0)
  }

  /** No sample wraps: the value stored is the scaled one, truncated toward zero. */
  lemma SamplesFit(x: real)
    ensures var s := Clamp1(x);
            Sample(x) == Truncate(if s < 0.0 then s * 32768.0 else s * 32767.0)
    ensures Sample(x) < 0 ==> x < 0.0
    ensures x >= 1.0 ==> Sample(x) == 0x7fff
    ensures x <= -1.0 ==> Sample(x) == -0x8000
  {
  }

  /** A sample in range is stored as its scaled value cut toward zero, and one out of range as the end of the range. */
  lemma SampleMeans(x: real)
    ensures 0.0 <= x <= 1.0 ==> 0.0 <= x * 32767.0 - Sample(x) as real < 1.0
    ensures -1.0 <= x < 0.0 ==> 0.0 <= Sample(x) as real - x * 32768.0 < 1.0
    ensures x > 1.0 ==> Sample(x) == 32767
    ensures x < -1.0 ==> Sample(x) == -32768
  {
  }

  // ------------------------------------------------------- the whole stream

  /** Where the cursor stands after `n` input samples. */
  function Cursor(step: real, n: nat): real {
    if n == 0 then 0.0
    else
      var c := Cursor(step, n - 1) + 1.0;
      if c >= step then c - step else c
  }

  /** Input sample number `n`, counted from one, yields an output sample. */
  predicate Yields(step: real, n: nat) {
    n > 0 && Cursor(step, n - 1) + 1.0 >= step
  }

  function Picks(step: real, input: seq<real>): seq<int> {
    if input == [] then []
    else Picks(step, input[..|input| - 1]) + if Yields(step, |input|) then [Sample(input[|input| - 1])] else []
  }

  function CountOf(step: real, n: nat): nat {
    if n == 0 then 0 else CountOf(step, n - 1) + if Yields(step, n) then 1 else 0
  }

  lemma {:induction false} PicksCount(step: real, input: seq<real>)
    ensures |Picks(step, input)| == CountOf(step, |input|)
  {
    if input != [] {
      PicksCount(step, input[..|input| - 1]);
    }
  }

  lemma {:induction false} CursorIsTheRemainder(step: real, n: nat)
    requires step >= 1.0
    ensures 0.0 <= Cursor(step, n) < step
    ensures Cursor(step, n) == n as real - CountOf(step, n) as real * step
  {
    if n > 0 {
      CursorIsTheRemainder(step, n - 1);
      var before := CountOf(step, n - 1);
      OneMoreStep(before, step);
      assert n as real == (n - 1) as real + 1.0;
      assert CountOf(step, n) == if Yields(step, n) then before + 1 else before;
    }
  }

  lemma OneMoreStep(k: nat, step: real)
    ensures (k + 1) as real * step == k as real * step + step
  {
    assert (k + 1) as real == k as real + 1.0;
    Products.OneMore(k as real, step);
  }

  lemma FloorFromRemainder(a: real, step: real, k: nat)
    requires step > 0.0 && 0.0 <= a - k as real * step < step
    ensures (a / step).Floor == k
  {
    var low := k as real;
    Products.OneMore(low, step);
    Products.QuotientAtLeast(a, step, low);
    Products.QuotientBelow(a, step, low + 1.0);
  }

  lemma QuotientOf(a: nat, d: nat, q: nat, r: nat)
    requires a == q * d + r && r < d
    ensures a / d == q
  {
    QuotientIsUnique(d, a / d, a % d, q, r);
  }

  lemma QuotientIsUnique(d: int, q: int, r: int, q': int, r': int)
    requires q * d + r == q' * d + r' && 0 <= r < d && 0 <= r' < d
    ensures q == q'
  {
    var e := q - q';
    assert e * d == r' - r;
    MultipleBelow(d, e);
    MultipleBelow(d, -e);
  }

  lemma MultipleBelow(d: int, e: int)
    requires e * d < d && d > 0
    ensures e <= 0
  {
    assert (e - 1) * d == e * d - d;
  }

  /** The remainder in whole numbers: sixteen thousand times everything. */
  lemma {:induction false} ScaledRemainder(rate: nat, step: real, n: nat)
    requires rate >= TARGET_RATE && step * 16000.0 == rate as real
    ensures Cursor(step, n) * 16000.0 == (TARGET_RATE * n - CountOf(step, n) * rate) as real
    ensures 0 <= TARGET_RATE * n - CountOf(step, n) * rate < rate
  {
    if n > 0 {
      ScaledRemainder(rate, step, n - 1);
      if Yields(step, n) {
        assert (CountOf(step, n - 1) + 1) * rate == CountOf(step, n - 1) * rate + rate;
      }
    }
  }

  /** After `n` input samples at `rate`, exactly floor(16000 n / rate) output samples exist. */
  lemma OutputCount(rate: nat, step: real, input: seq<real>)
    requires rate >= TARGET_RATE && step == rate as real / 16000.0
    ensures |Picks(step, input)| == 16000 * |input| / rate
  {
    var n := |input|;
    var k := CountOf(step, n);
    PicksCount(step, input);
    ScaledRemainder(rate, step, n);
    QuotientOf(TARGET_RATE * n, rate, k, TARGET_RATE * n - k * rate);
  }

  lemma {:induction false} SlowInputYieldsAlways(step: real, n: nat)
    requires 0.0 < step <= 1.0
    ensures CountOf(step, n) == n && Cursor(step, n) == n as real * (1.0 - step)
  {
    if n > 0 {
      SlowInputYieldsAlways(step, n - 1);
      var before, gap := (n - 1) as real, 1.0 - step;
      Products.Nonnegative(before, gap);
      assert n as real == before + 1.0;
      assert (before + 1.0) * gap == before * gap + gap;
    }
  }

  /** The count law holds for every length exactly when the input is at least as fast as the output. */
  lemma CountLawNeedsFastInput(step: real)
    requires step > 0.0
    ensures (forall n: nat :: CountOf(step, n) == (n as real / step).Floor) <==> step >= 1.0
  {
    if step >= 1.0 {
      forall n: nat
        ensures CountOf(step, n) == (n as real / step).Floor
      {
        CursorIsTheRemainder(step, n);
        FloorFromRemainder(n as real, step, CountOf(step, n));
      }
    } else {
      var n := SlowInputFallsShort(step);
      SlowInputYieldsAlways(step, n);
      assert CountOf(step, n) != (n as real / step).Floor;
    }
  }

  /** Long enough input at too low a rate falls a whole sample short. */
  lemma SlowInputFallsShort(step: real) returns (n: nat)
    requires 0.0 < step < 1.0
    ensures (n as real / step).Floor >= n + 1
  {
    var gap := 1.0 - step;
    var x := step / gap;
    assert x * gap == step;
    assert x > 0.0;
    n := x.Floor + 1;
    var m := n as real;
    Products.Monotone(x, m, gap);
    assert (m + 1.0) * step == m - m * gap + step <= m;
    Products.Monotone(0.0, m + 1.0, step);
    Products.QuotientAtLeast(m, step, m + 1.0);
  }

  /** Input sample `n` is the first whose number reaches `k` steps. */
  ghost predicate Reaches(step: real, n: nat, k: nat) {
    n > 0 && (n - 1) as real < k as real * step <= n as real
  }

  /** Output sample `k` is taken from the first input sample whose number reaches `k` steps. */
  lemma {:induction false} PickedFrom(step: real, input: seq<real>, k: nat) returns (n: nat)
    requires step >= 1.0 && 1 <= k <= |Picks(step, input)|
    ensures 1 <= n <= |input| && Picks(step, input)[k - 1] == Sample(input[n - 1])
    ensures Reaches(step, n, k)
  {
    var init := input[..|input| - 1];
    if k <= |Picks(step, init)| {
      n := PickedFrom(step, init, k);
    } else {
      n := |input|;
      PicksCount(step, input);
      PicksCount(step, init);
      YieldPoint(step, n);
    }
  }

  /** The sample that yields output `k` is the first to reach `k` steps. */
  lemma YieldPoint(step: real, n: nat)
    requires step >= 1.0 && Yields(step, n)
    ensures Reaches(step, n, CountOf(step, n))
  {
    CursorIsTheRemainder(step, n);
    CursorIsTheRemainder(step, n - 1);
    var before := CountOf(step, n - 1) as real;
    assert CountOf(step, n) as real == before + 1.0;
    assert (before + 1.0) * step == before * step + step;
  }

  // ------------------------------------------------------------- the worklet

  /** `stream` cut into whole frames. */
  function Frames(stream: seq<int>): seq<seq<int>> {
    seq(|stream| / FRAME_SAMPLES,
        k requires 0 <= k < |stream| / FRAME_SAMPLES => stream[k * FRAME_SAMPLES..(k + 1) * FRAME_SAMPLES])
  }

  lemma DivGrow(n: nat)
    ensures (n + 1) / FRAME_SAMPLES == n / FRAME_SAMPLES + if n % FRAME_SAMPLES == FRAME_SAMPLES - 1 then 1 else 0
    ensures (n + 1) % FRAME_SAMPLES == if n % FRAME_SAMPLES == FRAME_SAMPLES - 1 then 0 else n % FRAME_SAMPLES + 1
  {
  }

  /** One more sample leaves the frames alone or completes one. */
  lemma FramesGrow(stream: seq<int>, s: int)
    ensures var longer := stream + [s];
            Frames(longer) == if |longer| % FRAME_SAMPLES == 0
                              then Frames(stream) + [longer[|longer| - FRAME_SAMPLES..]] else Frames(stream)
  {
    var longer := stream + [s];
    DivGrow(|stream|);
    var count := |stream| / FRAME_SAMPLES;
    forall k | 0 <= k < count
      ensures Frames(longer)[k] == Frames(stream)[k]
    {
      assert (k + 1) * FRAME_SAMPLES <= |stream|;
      assert longer[k * FRAME_SAMPLES..(k + 1) * FRAME_SAMPLES] == stream[k * FRAME_SAMPLES..(k + 1) * FRAME_SAMPLES];
    }
    if |longer| % FRAME_SAMPLES == 0 {
      assert |longer| == (count + 1) * FRAME_SAMPLES;
      assert Frames(longer)[count] == longer[|longer| - FRAME_SAMPLES..];
      assert Frames(longer) == Frames(stream) + [longer[|longer| - FRAME_SAMPLES..]];
    } else {
      assert Frames(longer) == Frames(stream);
    }
  }

  lemma HeardGrows(step: real, heard: seq<real>, x: real)
    ensures var c := Cursor(step, |heard|) + 1.0;
            && Cursor(step, |heard + [x]|) == (if c >= step then c - step else c)
            && Picks(step, heard + [x]) == if c >= step then Picks(step, heard) + [Sample(x)] else Picks(step, heard)
  {
    var longer := heard + [x];
    assert longer[..|longer| - 1] == heard;
    if !Yields(step, |longer|) {
      assert Picks(step, longer) == Picks(step, heard) + [];
    }
  }

  /** What the worklet's fields must be once `stream` has been picked out. */
  ghost predicate Holds(stream: seq<int>, posted: seq<seq<int>>, filled: seq<int>) {
    && |filled| == |stream| % FRAME_SAMPLES
    && posted == Frames(stream)
    && filled == stream[|stream| - |filled|..]
  }

  lemma HoldsGrows(stream: seq<int>, posted: seq<seq<int>>, filled: seq<int>, s: int)
    requires Holds(stream, posted, filled)
    ensures |filled| + 1 <= 1600
    ensures if |filled| + 1 == 1600
            then Holds(stream + [s], posted + [filled + [s]], []) else Holds(stream + [s], posted, filled + [s])
  {
    var longer := stream + [s];
    FramesGrow(stream, s);
    DivGrow(|stream|);
    assert filled + [s] == longer[|longer| - (|filled| + 1)..];
  }

  class Worklet {
    const step: real
    const buffer: array<int>
    var write: nat
    var sourceCursor: real
    var posted: seq<seq<int>>
    ghost var heard: seq<real>  // all input samples so far

    /** The state is a function of everything heard, however it was split into calls. */
    ghost predicate Valid()
      reads this, buffer
    {
      var stream := Picks(step, heard);
      && buffer.Length == FRAME_SAMPLES
      && sourceCursor == Cursor(step, |heard|)
      && write < FRAME_SAMPLES
      && Holds(stream, posted, buffer[..write])
    }

    constructor (sampleRate: nat)
      ensures Valid() && fresh(buffer) && heard == [] && step == sampleRate as real / 16000.0
    {
      buffer := new int[FRAME_SAMPLES];
      step := sampleRate as real / 16000.0;
      write, sourceCursor, posted, heard := 0, 0.0, [], [];
    }

    /** One turn of the loop. */
    method Hear(x: real)
      requires Valid()
      modifies this, buffer
      ensures Valid() && heard == old(heard) + [x]
      ensures old(posted) <= posted
    {
      ghost var before := Picks(step, heard);
      HeardGrows(step, heard, x);
      heard := heard + [x];
      sourceCursor := sourceCursor + 1.0;
      if sourceCursor >= step {
        sourceCursor := sourceCursor - step;
        var sample := Sample(x);
        HoldsGrows(before, posted, buffer[..write], sample);
        ghost var filled := buffer[..write];
        buffer[write] := sample;
        write := write + 1;
        assert buffer[..write] == filled + [sample];
        if write >= FRAME_SAMPLES {
          assert buffer[..] == buffer[..write];
          posted := posted + [buffer[..]];
          write := 0;
          assert buffer[..write] == [];
        }
      }
    }

    /** `input` is the first channel of the first input, if there is one. */
    method Process(input: Option<seq<real>>) returns (alive: bool)
      requires Valid()
      modifies this, buffer
      ensures Valid() && alive && posted == Frames(Picks(step, heard))
      ensures heard == old(heard) + (if input.Some? then input.value else [])
      ensures old(posted) <= posted
    {
      if input.None? {
        return true;
      }
      var channel := input.value;
      for i := 0 to |channel|
        invariant Valid()
        invariant heard == old(heard) + channel[..i]
        invariant old(posted) <= posted
      {
        Hear(channel[i]);
        assert channel[..i + 1] == channel[..i] + [channel[i]];
      }
      assert channel[..|channel|] == channel;
      alive := true;
    }
  }
}
