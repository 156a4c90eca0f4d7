/**
 The level history behind the waveform: a ring of 48 samples shifted every 50 ms, and
 a published copy of it that is not refreshed while everything is silent. Both are
 arrays on the heap, and after a stop they are the same array.
 */
module AnalyserLevels {
  import opened Numbers

  const HISTORY_SIZE := 48
  const LEVEL_DELTA := 0.02

  function Zeros(n: nat): (s: seq<real>)
    ensures |s| == n && forall i :: 0 <= i < n ==> s[i] == 0.0
  {
    seq(n, _ => 0.0)
  }

  /** Length of the run of zeros at the end. */
  function TrailingZeros(s: seq<real>): (n: nat)
    ensures n <= |s|
    ensures forall i :: |s| - n <= i < |s| ==> s[i] == 0.0
    ensures n < |s| ==> s[|s| - n - 1] != 0.0
  {
    if s == [] || s[|s| - 1] != 0.0 then 0 else 1 + TrailingZeros(s[..|s| - 1])
  }

  lemma TrailingZerosUnique(s: seq<real>, n: nat)
    requires n <= |s| && (forall i :: |s| - n <= i < |s| ==> s[i] == 0.0)
    requires n < |s| ==> s[|s| - n - 1] != 0.0
    ensures TrailingZeros(s) == n
  {
    var t := TrailingZeros(s);
    assert n < |s| ==> !(|s| - t <= |s| - n - 1);
    assert t < |s| ==> !(|s| - n <= |s| - t - 1);
  }

  /** Shifting in one sample extends or resets the run; a full run is lost from the front, not the back. */
  lemma RunAfterShift(s: seq<real>, x: real)
    requires |s| == 48
    ensures TrailingZeros(s[1..] + [x]) == if x != 0.0 then 0 else Min(48, TrailingZeros(s) + 1)
  {
    var t := TrailingZeros(s);
    var shifted := s[1..] + [x];
    assert forall i :: 0 <= i < HISTORY_SIZE - 1 ==> shifted[i] == s[i + 1];
    if x != 0.0 {
      TrailingZerosUnique(shifted, 0);
    } else if t + 1 >= HISTORY_SIZE {
      TrailingZerosUnique(shifted, HISTORY_SIZE);
    } else {
      assert shifted[HISTORY_SIZE - t - 2] == s[HISTORY_SIZE - t - 1];
      TrailingZerosUnique(shifted, t + 1);
    }
  }

  function LastOf(s: seq<real>, n: nat): seq<real>
    requires n <= |s|
  {
    s[|s| - n..]
  }

  /** A JavaScript array of numbers. */
  class Levels {
    var items: seq<real>

    constructor (items: seq<real>)
      ensures this.items == items
    {
      this.items := items;
    }
  }

  /** The published history lags at most by one zero: it is the ring, or both are silent but for its oldest entry. */
  predicate Current(ring: seq<real>, shown: seq<real>) {
    shown == ring
    || (ring == Zeros(HISTORY_SIZE) && |shown| == HISTORY_SIZE && shown[1..] == Zeros(HISTORY_SIZE - 1))
  }

  lemma AllZerosOrNot(s: seq<real>)
    requires |s| == HISTORY_SIZE
    ensures TrailingZeros(s) == HISTORY_SIZE <==> s == Zeros(HISTORY_SIZE)
  {
    if TrailingZeros(s) == HISTORY_SIZE {
      assert s == Zeros(HISTORY_SIZE);
    }
  }

  /** Shifting silence into a ring whose published copy was current leaves at most that copy's head out of date. */
  lemma SkippedTickStaysCurrent(ring: seq<real>, shown: seq<real>)
    requires |ring| == HISTORY_SIZE && Current(ring, shown) && ring[1..] + [0.0] == Zeros(HISTORY_SIZE)
    ensures Current(Zeros(HISTORY_SIZE), shown)
  {
    assert ring[1..] == Zeros(HISTORY_SIZE)[..HISTORY_SIZE - 1] == Zeros(HISTORY_SIZE - 1);
  }

  lemma HeadDecides(shown: seq<real>)
    requires |shown| == HISTORY_SIZE && shown[1..] == Zeros(HISTORY_SIZE - 1)
    ensures shown == Zeros(HISTORY_SIZE) <==> shown[0] == 0.0
  {
    assert shown == [shown[0]] + Zeros(HISTORY_SIZE - 1);
    assert Zeros(HISTORY_SIZE) == [0.0] + Zeros(HISTORY_SIZE - 1);
  }

  lemma LastOfShifted(all: seq<real>, x: real)
    requires |all| >= HISTORY_SIZE
    ensures LastOf(all, HISTORY_SIZE)[1..] + [x] == LastOf(all + [x], HISTORY_SIZE)
  {
  }

  class Recorder {
    var ring: Levels          // levelsRef
    var shown: Levels         // published state
    var latest: real
    var lastEmitted: real
    var audioLevel: real      // published state
    var trailingZeros: nat
    ghost var ticks: seq<real>  // samples shifted in since the last stop

    ghost predicate Valid()
      reads this, ring, shown
    {
      && |ring.items| == HISTORY_SIZE
      && trailingZeros == TrailingZeros(ring.items)
      && Current(ring.items, shown.items)
      && ring.items == LastOf(Zeros(HISTORY_SIZE) + ticks, HISTORY_SIZE)
      && lastEmitted == audioLevel
      && AbsReal(audioLevel - latest) < LEVEL_DELTA
    }

    constructor ()
      ensures Valid() && fresh(ring) && fresh(shown) && ring != shown
      ensures ticks == [] && audioLevel == 0.0
    {
      ring := new Levels(Zeros(HISTORY_SIZE));
      shown := new Levels(Zeros(HISTORY_SIZE));
      latest, lastEmitted, audioLevel := 0.0, 0.0, 0.0;
      trailingZeros := HISTORY_SIZE;
      ticks := [];
      TrailingZerosUnique(Zeros(HISTORY_SIZE), HISTORY_SIZE);
      assert Zeros(HISTORY_SIZE) + [] == Zeros(HISTORY_SIZE);
    }

    /** The 50 ms tick. The ring is shifted in place, which also shows in `shown` where they are one array. */
    method Tick()
      requires Valid()
      modifies this, ring
      ensures Valid() && ring == old(ring) && ring.items == old(ring.items)[1..] + [old(latest)]
      ensures ticks == old(ticks) + [old(latest)]
      ensures latest == old(latest) && lastEmitted == old(lastEmitted) && audioLevel == old(audioLevel)
      ensures if ring.items == Zeros(HISTORY_SIZE) then shown == old(shown) else fresh(shown) && shown.items == ring.items
      // The published history is out of date exactly when silence set in over a copy with a sound at its head.
      ensures shown.items == ring.items <==>
              ring.items != Zeros(HISTORY_SIZE) || old(shown == ring) || old(shown.items)[0] == 0.0
    {
      var next := latest;
      RunAfterShift(ring.items, next);
      AllZerosOrNot(ring.items[1..] + [next]);
      LastOfShifted(Zeros(HISTORY_SIZE) + ticks, next);
      assert Zeros(HISTORY_SIZE) + ticks + [next] == Zeros(HISTORY_SIZE) + (ticks + [next]);
      ghost var was := ring.items;
      ring.items := ring.items[1..] + [next];
      ticks := ticks + [next];
      if next == 0.0 {
        trailingZeros := Min(HISTORY_SIZE, trailingZeros + 1);
        if trailingZeros >= HISTORY_SIZE {
          if shown != ring {
            SkippedTickStaysCurrent(was, shown.items);
            HeadDecides(shown.items);
          }
          return;
        }
      } else {
        trailingZeros := 0;
      }
      shown := new Levels(ring.items);
    }

    /** One pass of the animation-frame loop, after the level of the analyser was computed. */
    method OnFrame(next: real)
      requires Valid()
      modifies this`latest, this`lastEmitted, this`audioLevel
      ensures Valid() && latest == next
      ensures audioLevel == if AbsReal(next - old(audioLevel)) >= 0.02 then next else old(audioLevel)
    {
      latest := next;
      if AbsReal(next - lastEmitted) >= LEVEL_DELTA {
        lastEmitted := next;
        audioLevel := next;
      }
    }

    method Stop()
      requires Valid()
      modifies this
      ensures Valid() && fresh(ring) && shown == ring && ring.items == Zeros(HISTORY_SIZE)
      ensures ticks == [] && audioLevel == 0.0 && latest == 0.0
    {
      latest, lastEmitted := 0.0, 0.0;
      trailingZeros := HISTORY_SIZE;
      var silence := new Levels(Zeros(HISTORY_SIZE));
      ring := silence;
      shown := silence;
      audioLevel := 0.0;
      ticks := [];
      TrailingZerosUnique(Zeros(HISTORY_SIZE), HISTORY_SIZE);
      assert Zeros(HISTORY_SIZE) + [] == Zeros(HISTORY_SIZE);
    }
  }
}
