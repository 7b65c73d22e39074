/** Lines seen as sequences of held levels, and the times between their falling edges. */
module Waveform {

  datatype Hold = Hold(high: bool, ticks: nat)

  /** Times between falling edges of a waveform, the line being at `high` with the last fall `since` ticks ago. */
  function Falls(high: bool, since: nat, wave: seq<Hold>): seq<nat>
    decreases |wave|
  {
    if wave == [] then []
    else if high && !wave[0].high then [since] + Falls(false, wave[0].ticks, wave[1..])
    else Falls(wave[0].high, since + wave[0].ticks, wave[1..])
  }

  lemma FallsStep(high: bool, since: nat, h: Hold, rest: seq<Hold>)
    ensures Falls(high, since, [h] + rest) ==
      if high && !h.high then [since] + Falls(false, h.ticks, rest) else Falls(h.high, since + h.ticks, rest)
  {
    assert ([h] + rest)[1..] == rest;
  }

  /** Two held levels, one high and one low. */
  lemma FallsPair(high: bool, since: nat, a: Hold, b: Hold, rest: seq<Hold>)
    requires a.high != b.high
    ensures Falls(high, since, [a, b] + rest) ==
      if a.high then [since + a.ticks] + Falls(false, b.ticks, rest)
      else if high then [since] + Falls(true, a.ticks + b.ticks, rest)
      else Falls(true, since + a.ticks + b.ticks, rest)
  {
    assert [a, b] + rest == [a] + ([b] + rest);
    FallsStep(high, since, a, [b] + rest);
    FallsStep(a.high, since + a.ticks, b, rest);
    FallsStep(a.high, a.ticks, b, rest);
  }

  lemma FallsNone()
    ensures Falls(false, 0, []) == []
  {
  }
}
