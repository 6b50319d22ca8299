/** The Threshold node: each channel turns on after its value has stayed at or above the trigger value
    for longer than the sustain time, and off after it has stayed below for longer than the silence
    time. Times and values are reals. */
module Threshold {

  datatype ThresholdConfig = ThresholdConfig(
    triggerValue: real, sustainTime: real, silenceTime: real, timePastThreshold: real, triggered: bool)

  /** What a channel pushes: its state, or a flow event. */
  datatype Push = State(on: bool) | Flow

  datatype Event = Event(channel: nat, push: Push)

  /** One update of one channel: the value it sees and the time that has passed. */
  datatype Sample = Sample(value: real, deltaTime: real)

  // ----- one update

  function Step(c: ThresholdConfig, s: Sample): ThresholdConfig {
    var time := if Against(c, c.triggered, s) then c.timePastThreshold + s.deltaTime else 0.0;
    if Against(c, c.triggered, s) && time > Limit(c, c.triggered)
    then c.(triggered := !c.triggered, timePastThreshold := 0.0)
    else c.(timePastThreshold := time)
  }

  /** The sample speaks against the state the channel is in. */
  predicate Against(c: ThresholdConfig, on: bool, s: Sample) {
    if on then c.triggerValue > s.value else c.triggerValue <= s.value
  }

  function Limit(c: ThresholdConfig, on: bool): real {
    if on then c.silenceTime else c.sustainTime
  }

  function Pushes(was: ThresholdConfig, now: ThresholdConfig): seq<Push> {
    if was.triggered == now.triggered then [] else if now.triggered then [State(true), Flow] else [State(false)]
  }

  /** What one channel pushed, in order. */
  ghost function PushesOf(events: seq<Event>, channel: nat): seq<Push> {
    if events == [] then []
    else
      var last := events[|events| - 1];
      PushesOf(events[..|events| - 1], channel) + if last.channel == channel then [last.push] else []
  }

  function Tagged(channel: nat, pushes: seq<Push>): seq<Event> {
    if pushes == [] then [] else Tagged(channel, pushes[..|pushes| - 1]) + [Event(channel, pushes[|pushes| - 1])]
  }

  lemma {:induction false} TaggedChannel(channel: nat, pushes: seq<Push>)
    ensures forall e :: e in Tagged(channel, pushes) ==> e.channel == channel
  {
    if pushes != [] {
      TaggedChannel(channel, pushes[..|pushes| - 1]);
    }
  }

  lemma PushedOne(events: seq<Event>, e: Event, channel: nat)
    ensures PushesOf(events + [e], channel) == PushesOf(events, channel) + if e.channel == channel then [e.push] else []
  {
    assert (events + [e])[..|events|] == events;
  }

  lemma {:induction false} PushedAlso(events: seq<Event>, i: nat, pushes: seq<Push>, channel: nat)
    ensures PushesOf(events + Tagged(i, pushes), channel)
            == PushesOf(events, channel) + if channel == i then pushes else []
  {
    hide PushesOf;
    if pushes == [] {
      assert events + [] == events;
    } else {
      var before, last := pushes[..|pushes| - 1], Event(i, pushes[|pushes| - 1]);
      assert pushes == before + [last.push];
      assert events + Tagged(i, pushes) == events + Tagged(i, before) + [last];
      PushedAlso(events, i, before, channel);
      PushedOne(events + Tagged(i, before), last, channel);
    }
  }

  /** What an update does to a channel. An idle channel counts the time of values at or above the trigger
      value and turns on when that exceeds the sustain time; a channel that is on counts the time of values
      below and turns off when that exceeds the silence time. Any other value, and any turn, resets the
      clock. */
  ghost predicate Updated(was: ThresholdConfig, now: ThresholdConfig, value: real, deltaTime: real) {
    && (!was.triggered ==>
          (now.triggered <==> value >= was.triggerValue && was.timePastThreshold + deltaTime > was.sustainTime))
    && (was.triggered ==>
          (!now.triggered <==> value < was.triggerValue && was.timePastThreshold + deltaTime > was.silenceTime))
    && (now.triggered != was.triggered ==> now.timePastThreshold == 0.0)
    && ((value >= was.triggerValue) == was.triggered ==> now.timePastThreshold == 0.0)
    && (now.triggered == was.triggered && (value >= was.triggerValue) != was.triggered ==>
          now.timePastThreshold == was.timePastThreshold + deltaTime)
    && now.triggerValue == was.triggerValue && now.sustainTime == was.sustainTime && now.silenceTime == was.silenceTime
  }

  lemma StepUpdates(c: ThresholdConfig, s: Sample)
    ensures Updated(c, Step(c, s), s.value, s.deltaTime)
  {
  }

  /** The update of all channels: each takes one step, and a turn pushes the new state, followed by a
      flow event if it is a rise. */
  method Update(configs: array<ThresholdConfig>, values: seq<real>, deltaTime: real) returns (events: seq<Event>)
    requires configs.Length == |values|
    modifies configs
    ensures forall i :: 0 <= i < |values| ==> configs[i] == Step(old(configs[i]), Sample(values[i], deltaTime))
    ensures forall i :: 0 <= i < |values| ==> Updated(old(configs[i]), configs[i], values[i], deltaTime)
    ensures forall i :: 0 <= i < |values| && !old(configs[i]).triggered && configs[i].triggered ==>
      PushesOf(events, i) == [State(true), Flow]
    ensures forall i :: 0 <= i < |values| && old(configs[i]).triggered && !configs[i].triggered ==>
      PushesOf(events, i) == [State(false)]
    ensures forall i :: 0 <= i < |values| && old(configs[i]).triggered == configs[i].triggered ==>
      PushesOf(events, i) == []
    ensures forall e :: e in events ==> e.channel < |values|
  {
    hide PushesOf, Step, Tagged, Updated;
    events := [];
    NothingPushed();
    for i := 0 to |values|
      invariant forall k :: 0 <= k < |values| ==>
        configs[k] == if k < i then Step(old(configs[k]), Sample(values[k], deltaTime)) else old(configs[k])
      invariant forall k :: 0 <= k < i ==> Updated(old(configs[k]), configs[k], values[k], deltaTime)
      invariant forall k :: 0 <= k < |values| ==>
        PushesOf(events, k) == if k < i then Pushes(old(configs[k]), configs[k]) else []
      invariant forall e :: e in events ==> e.channel < i
    {
      var pushes := UpdateChannel(configs, i, values[i], deltaTime);
      StepUpdates(old(configs[i]), Sample(values[i], deltaTime));
      forall k | 0 <= k < |values| { PushedAlso(events, i, pushes, k); }
      TaggedChannel(i, pushes);
      events := events + Tagged(i, pushes);
    }
  }

  lemma NothingPushed()
    ensures forall k: nat :: PushesOf([], k) == []
  {
  }

  method UpdateChannel(configs: array<ThresholdConfig>, i: nat, value: real, deltaTime: real)
    returns (pushes: seq<Push>)
    requires i < configs.Length
    modifies configs
    ensures configs[i] == Step(old(configs[i]), Sample(value, deltaTime))
    ensures forall k :: 0 <= k < configs.Length && k != i ==> configs[k] == old(configs[k])
    ensures pushes == Pushes(old(configs[i]), configs[i])
  {
    pushes := [];
    if configs[i].triggered {
      if configs[i].triggerValue > value {
        configs[i] := configs[i].(timePastThreshold := configs[i].timePastThreshold + deltaTime);
        if configs[i].timePastThreshold > configs[i].silenceTime {
          configs[i] := configs[i].(triggered := false);
          configs[i] := configs[i].(timePastThreshold := 0.0);
          pushes := pushes + [State(false)];
        }
      } else {
        configs[i] := configs[i].(timePastThreshold := 0.0);
      }
    } else {
      if configs[i].triggerValue <= value {
        configs[i] := configs[i].(timePastThreshold := configs[i].timePastThreshold + deltaTime);
        if configs[i].timePastThreshold > configs[i].sustainTime {
          configs[i] := configs[i].(triggered := true);
          configs[i] := configs[i].(timePastThreshold := 0.0);
          pushes := pushes + [State(true)];
          pushes := pushes + [Flow];
        }
      } else {
        configs[i] := configs[i].(timePastThreshold := 0.0);
      }
    }
  }

  // ----- whole runs of one channel

  function After(c: ThresholdConfig, run: seq<Sample>): ThresholdConfig {
    if run == [] then c else Step(After(c, run[..|run| - 1]), run[|run| - 1])
  }

  /** How many samples had been seen when the channel last changed its state. */
  ghost function LastFlip(c: ThresholdConfig, run: seq<Sample>): (k: nat)
    ensures k <= |run|
  {
    if run == [] then 0
    else if After(c, run).triggered != After(c, run[..|run| - 1]).triggered then |run|
    else LastFlip(c, run[..|run| - 1])
  }

  lemma {:induction false} SettingsStay(c: ThresholdConfig, run: seq<Sample>)
    ensures var r := After(c, run);
            r.triggerValue == c.triggerValue && r.sustainTime == c.sustainTime && r.silenceTime == c.silenceTime
  {
    if run != [] {
      SettingsStay(c, run[..|run| - 1]);
    }
  }

  function Sum(run: seq<Sample>): real {
    if run == [] then 0.0 else Sum(run[..|run| - 1]) + run[|run| - 1].deltaTime
  }

  /** The samples from j to the end all speak against the state. */
  ghost predicate StretchFrom(c: ThresholdConfig, on: bool, run: seq<Sample>, j: nat) {
    j <= |run| && forall i :: j <= i < |run| ==> Against(c, on, run[i])
  }

  /** Where the longest such stretch after a given sample starts. */
  ghost function StretchStart(c: ThresholdConfig, on: bool, run: seq<Sample>, since: nat): (j: nat)
    requires since <= |run|
    ensures since <= j <= |run| && StretchFrom(c, on, run, j)
    ensures forall k: nat :: since <= k && StretchFrom(c, on, run, k) ==> j <= k
    decreases |run|
  {
    if since == |run| || !Against(c, on, run[|run| - 1]) then |run|
    else
      var j := StretchStart(c, on, run[..|run| - 1], since);
      assert forall k: nat :: k < |run| && StretchFrom(c, on, run, k) ==> StretchFrom(c, on, run[..|run| - 1], k) by {
        assert forall i :: 0 <= i < |run| - 1 ==> run[..|run| - 1][i] == run[i];
      }
      j
  }

  /** The clock of a channel shows the time of the longest stretch of samples against its state
      since that state began. */
  lemma {:induction false} ClockIsStretch(c: ThresholdConfig, run: seq<Sample>)
    requires c.timePastThreshold == 0.0
    ensures var r := After(c, run);
            r.timePastThreshold == Sum(run[StretchStart(c, r.triggered, run, LastFlip(c, run))..])
  {
    if run != [] {
      var before, s := run[..|run| - 1], run[|run| - 1];
      ClockIsStretch(c, before);
      SettingsStay(c, before);
      var on := After(c, before).triggered;
      if After(c, run).triggered == on && Against(c, on, s) {
        var j := StretchStart(c, on, before, LastFlip(c, before));
        assert StretchStart(c, on, run, LastFlip(c, run)) == j;
        SumExtend(before, s, j);
        assert run == before + [s];
      }
    }
  }

  lemma SumExtend(run: seq<Sample>, s: Sample, j: nat)
    requires j <= |run|
    ensures Sum((run + [s])[j..]) == Sum(run[j..]) + s.deltaTime
  {
    assert (run + [s])[j..] == run[j..] + [s];
    assert (run[j..] + [s])[..|run| - j] == run[j..];
  }

  lemma {:induction false} SumSplit(run: seq<Sample>, j: nat)
    requires j <= |run|
    ensures Sum(run) == Sum(run[..j]) + Sum(run[j..])
    decreases |run|
  {
    if j == |run| {
      assert run[..j] == run;
    } else {
      var before, s := run[..|run| - 1], run[|run| - 1];
      SumSplit(before, j);
      assert before[..j] == run[..j];
      assert run == before + [s];
      SumExtend(before, s, j);
    }
  }

  lemma {:induction false} SumNonNegative(run: seq<Sample>)
    requires forall i :: 0 <= i < |run| ==> run[i].deltaTime >= 0.0
    ensures Sum(run) >= 0.0
  {
    if run != [] {
      SumNonNegative(run[..|run| - 1]);
    }
  }

  /** A longer stretch takes at least as long. */
  lemma LongerStretch(run: seq<Sample>, j: nat, k: nat)
    requires j <= k <= |run|
    requires forall i :: 0 <= i < |run| ==> run[i].deltaTime >= 0.0
    ensures Sum(run[j..]) >= Sum(run[k..])
  {
    SumSplit(run[j..], k - j);
    assert run[j..][k - j..] == run[k..];
    SumNonNegative(run[j..][..k - j]);
  }

  /** A sample changes the state exactly when it ends a stretch of samples, all since the last change
      and all against the state, that together last longer than the limit of that state. */
  lemma FlipsIff(c: ThresholdConfig, run: seq<Sample>)
    requires c.timePastThreshold == 0.0 && run != []
    requires forall i :: 0 <= i < |run| ==> run[i].deltaTime >= 0.0
    ensures var before := run[..|run| - 1];
            var on := After(c, before).triggered;
            After(c, run).triggered != on <==>
            exists j: nat :: LastFlip(c, before) <= j < |run| && StretchFrom(c, on, run, j)
                && Sum(run[j..]) > Limit(c, on)
  {
    var before, s := run[..|run| - 1], run[|run| - 1];
    var on, since := After(c, before).triggered, LastFlip(c, before);
    ClockIsStretch(c, before);
    SettingsStay(c, before);
    OneMore(c, run);
    hide After, LastFlip, Sum;
    assert run == before + [s];
    if Against(c, on, s) {
      LongestStretch(c, on, before, s, since);
    }
  }

  /** An idle channel turns on exactly at the end of a stretch of samples since its last turn, all at or
      above the trigger value, that lasts longer than the sustain time. */
  lemma TurnsOnIff(c: ThresholdConfig, run: seq<Sample>)
    requires c.timePastThreshold == 0.0 && run != []
    requires forall i :: 0 <= i < |run| ==> run[i].deltaTime >= 0.0
    ensures var before := run[..|run| - 1];
            !After(c, before).triggered ==>
              (After(c, run).triggered <==>
               exists j: nat :: LastFlip(c, before) <= j < |run| && Sum(run[j..]) > c.sustainTime
                                && forall i :: j <= i < |run| ==> run[i].value >= c.triggerValue)
  {
    hide After, LastFlip, Sum;
    FlipsIff(c, run);
    forall j: nat | j < |run|
      ensures StretchFrom(c, false, run, j) <==> forall i :: j <= i < |run| ==> run[i].value >= c.triggerValue
    {
    }
  }

  /** A channel that is on turns off exactly at the end of a stretch of samples since its last turn, all
      below the trigger value, that lasts longer than the silence time. */
  lemma TurnsOffIff(c: ThresholdConfig, run: seq<Sample>)
    requires c.timePastThreshold == 0.0 && run != []
    requires forall i :: 0 <= i < |run| ==> run[i].deltaTime >= 0.0
    ensures var before := run[..|run| - 1];
            After(c, before).triggered ==>
              (!After(c, run).triggered <==>
               exists j: nat :: LastFlip(c, before) <= j < |run| && Sum(run[j..]) > c.silenceTime
                                && forall i :: j <= i < |run| ==> run[i].value < c.triggerValue)
  {
    hide After, LastFlip, Sum;
    FlipsIff(c, run);
    forall j: nat | j < |run|
      ensures StretchFrom(c, true, run, j) <==> forall i :: j <= i < |run| ==> run[i].value < c.triggerValue
    {
    }
  }

  /** Of all stretches that a sample ends, the longest takes the longest time. */
  lemma LongestStretch(c: ThresholdConfig, on: bool, before: seq<Sample>, s: Sample, since: nat)
    requires since <= |before| && Against(c, on, s)
    requires forall i :: 0 <= i < |before + [s]| ==> (before + [s])[i].deltaTime >= 0.0
    ensures var run, j := before + [s], StretchStart(c, on, before, since);
            && since <= j < |run| && StretchFrom(c, on, run, j) && Sum(run[j..]) == Sum(before[j..]) + s.deltaTime
            && forall k: nat :: since <= k < |run| && StretchFrom(c, on, run, k) ==> Sum(run[k..]) <= Sum(run[j..])
  {
    hide Sum;
    var run, j := before + [s], StretchStart(c, on, before, since);
    SumExtend(before, s, j);
    forall k: nat | since <= k < |run| && StretchFrom(c, on, run, k) ensures Sum(run[k..]) <= Sum(run[j..]) {
      assert forall i :: k <= i < |before| ==> before[i] == run[i];
      assert StretchFrom(c, on, before, k);
      LongerStretch(run, j, k);
    }
  }

  // ----- what a channel pushes over a run

  function Pushed(c: ThresholdConfig, run: seq<Sample>): seq<Push> {
    if run == [] then []
    else Pushed(c, run[..|run| - 1]) + Pushes(After(c, run[..|run| - 1]), After(c, run))
  }

  function States(pushed: seq<Push>): seq<bool> {
    if pushed == [] then []
    else States(pushed[..|pushed| - 1]) + if pushed[|pushed| - 1].State? then [pushed[|pushed| - 1].on] else []
  }

  function Flows(pushed: seq<Push>): nat {
    if pushed == [] then 0 else Flows(pushed[..|pushed| - 1]) + if pushed[|pushed| - 1].Flow? then 1 else 0
  }

  function Rises(states: seq<bool>): nat {
    if states == [] then 0 else Rises(states[..|states| - 1]) + if states[|states| - 1] then 1 else 0
  }

  lemma PushMore(pushed: seq<Push>, p: Push)
    ensures States(pushed + [p]) == if p.State? then States(pushed) + [p.on] else States(pushed)
    ensures Flows(pushed + [p]) == Flows(pushed) + if p.Flow? then 1 else 0
  {
    assert (pushed + [p])[..|pushed|] == pushed;
  }

  lemma RiseMore(states: seq<bool>, on: bool)
    ensures Rises(states + [on]) == Rises(states) + if on then 1 else 0
  {
    assert (states + [on])[..|states|] == states;
  }

  lemma StatesMore(pushed: seq<Push>, was: ThresholdConfig, now: ThresholdConfig)
    ensures States(pushed + Pushes(was, now))
            == if was.triggered == now.triggered then States(pushed) else States(pushed) + [now.triggered]
    ensures Flows(pushed + Pushes(was, now)) == Flows(pushed) + if !was.triggered && now.triggered then 1 else 0
  {
    hide States, Flows;
    PushMore(pushed, State(now.triggered));
    PushMore(pushed + [State(true)], Flow);
    assert pushed + [State(true), Flow] == pushed + [State(true)] + [Flow];
    assert pushed + [] == pushed;
  }

  ghost predicate Alternates(states: seq<bool>, first: bool) {
    forall i :: 0 <= i < |states| ==> states[i] == Turn(first, i)
  }

  ghost predicate Turn(first: bool, i: nat) {
    if i % 2 == 0 then first else !first
  }

  lemma NothingYet(c: ThresholdConfig, first: bool)
    ensures After(c, []) == c && Pushed(c, []) == [] && States([]) == [] && Flows([]) == Rises([]) == 0
    ensures Alternates([], first) && Turn(first, 0) == first
  {
  }

  lemma OneMore(c: ThresholdConfig, run: seq<Sample>)
    requires run != []
    ensures var before := run[..|run| - 1];
            && After(c, run) == Step(After(c, before), run[|run| - 1])
            && Pushed(c, run) == Pushed(c, before) + Pushes(After(c, before), After(c, run))
  {
  }

  lemma AlternateMore(states: seq<bool>, first: bool)
    requires Alternates(states, first)
    ensures Alternates(states + [Turn(first, |states|)], first)
    ensures Turn(first, |states| + 1) == !Turn(first, |states|)
  {
  }

  /** The pushed states alternate, starting with the opposite of the first state and ending with
      the last one, and there is one flow event for every rise. */
  lemma {:induction false} PushesAlternate(c: ThresholdConfig, run: seq<Sample>)
    ensures var states := States(Pushed(c, run));
            && Alternates(states, !c.triggered)
            && After(c, run).triggered == !Turn(!c.triggered, |states|)
            && Flows(Pushed(c, run)) == Rises(states)
  {
    hide *;
    if run == [] {
      NothingYet(c, !c.triggered);
    } else {
      var before := run[..|run| - 1];
      PushesAlternate(c, before);
      OneMore(c, run);
      var pushed, on := Pushed(c, before), After(c, run).triggered;
      StatesMore(pushed, After(c, before), After(c, run));
      if After(c, before).triggered != on {
        RiseMore(States(pushed), on);
        AlternateMore(States(pushed), !c.triggered);
      }
    }
  }
}
