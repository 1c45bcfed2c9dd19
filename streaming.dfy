/**
 * The streaming reveal shared by the two markdown views: a session starts
 * with nothing shown, the stream interval reveals `speed` more characters per
 * tick until the index has passed the end, and one further tick shows the
 * whole content, stops streaming, hides the cursor and clears the interval.
 * A second interval blinks the cursor while streaming.
 *
 * Timers are not modelled: each interval callback is an explicit step, and a
 * run is any sequence of such steps.
 */
module Streaming {

  /** JavaScript `s.slice(0, end)`: a negative end counts from the back, and
      an end past the length is cut to it. */
  function JsPrefix(s: string, end: int): (r: string)
    ensures |r| <= |s| && r == s[..|r|]
    ensures 0 <= end <= |s| ==> |r| == end
    ensures end >= |s| ==> r == s
    ensures end < 0 ==> |r| == if |s| + end < 0 then 0 else |s| + end
  {
    var n := if end < 0 then (if |s| + end < 0 then 0 else |s| + end)
             else if end < |s| then end else |s|;
    s[..n]
  }

  /** A longer (non-negative) end never gives a shorter prefix. */
  lemma JsPrefixGrows(s: string, a: int, b: int)
    requires 0 <= a <= b
    ensures IsPrefix(JsPrefix(s, a), JsPrefix(s, b))
  {
  }

  predicate IsPrefix(p: string, s: string) {
    |p| <= |s| && p == s[..|p|]
  }

  /** The state of one streaming session: the closure's `currentIndex`, the
      three React state values, and whether the stream interval is still set. */
  datatype Reveal = Reveal(
    content: string,
    speed: int,
    index: int,
    displayed: string,
    streaming: bool,
    cursor: bool,
    ticking: bool)

  /** The effect body: state reset, index 0, interval set. */
  function Start(content: string, speed: int): (r: Reveal)
    ensures r.displayed == "" && r.streaming && r.cursor && r.index == 0 && r.ticking
    ensures r.content == content && r.speed == speed
  {
    Reveal(content, speed, 0, "", true, true, true)
  }

  /** One call of the stream interval's callback; nothing once it is cleared. */
  function TickStep(r: Reveal): (r': Reveal)
    ensures r'.content == r.content && r'.speed == r.speed
    ensures Inv(r) ==> Inv(r')
    ensures r'.streaming ==> r.streaming
    ensures !r.ticking ==> r' == r
    ensures r.ticking && r.index >= |r.content| ==> !r'.streaming && !r'.ticking && r'.displayed == r.content
  {
    if !r.ticking then r
    else if r.index < |r.content| then
      r.(displayed := JsPrefix(r.content, r.index + r.speed), index := r.index + r.speed)
    else
      r.(displayed := r.content, streaming := false, cursor := false, ticking := false)
  }

  /** One call of the cursor interval's callback, which only runs while
      streaming: it flips the cursor. */
  function CursorStep(r: Reveal): (r': Reveal)
    ensures r' == r.(cursor := r'.cursor)
    ensures r'.cursor != r.cursor <==> r.streaming
    ensures Inv(r) ==> Inv(r')
  {
    if r.streaming then r.(cursor := !r.cursor) else r
  }

  /** `isStreaming && showCursor`: whether the caret is rendered. */
  function Caret(r: Reveal): (b: bool)
    ensures b ==> r.streaming
    ensures Inv(r) ==> (b <==> r.cursor)
    ensures Inv(r) && b ==> r.ticking && r.displayed == JsPrefix(r.content, r.index)
  {
    r.streaming && r.cursor
  }

  /** Which interval fired. */
  datatype Event = StreamFired | CursorFired

  function Step(r: Reveal, e: Event): Reveal {
    match e
    case StreamFired => TickStep(r)
    case CursorFired => CursorStep(r)
  }

  /** The state after a sequence of callbacks, in order. */
  function Run(r: Reveal, evs: seq<Event>): Reveal
    decreases |evs|
  {
    if evs == [] then r else Step(Run(r, evs[..|evs| - 1]), evs[|evs| - 1])
  }

  /** How many of the callbacks were stream ticks. */
  function StreamTicks(evs: seq<Event>): (n: nat)
    ensures n <= |evs|
    decreases |evs|
  {
    if evs == [] then 0
    else StreamTicks(evs[..|evs| - 1]) + (if evs[|evs| - 1] == StreamFired then 1 else 0)
  }

  /** The invariant both callbacks keep: the interval is set exactly while
      streaming; while streaming the view shows the prefix up to the index;
      afterwards it shows the whole content with the cursor hidden. */
  predicate Inv(r: Reveal) {
    && r.ticking == r.streaming
    && (r.streaming ==> r.displayed == JsPrefix(r.content, r.index))
    && (!r.streaming ==> r.displayed == r.content && !r.cursor)
  }

  lemma StartInv(content: string, speed: int)
    ensures Inv(Start(content, speed))
  {
  }

  /** Both callbacks keep the invariant, and neither changes the content or
      the speed. */
  lemma StepInv(r: Reveal, e: Event)
    requires Inv(r)
    ensures Inv(Step(r, e))
    ensures Step(r, e).content == r.content && Step(r, e).speed == r.speed
  {
  }

  lemma {:induction false} RunInv(r: Reveal, evs: seq<Event>)
    requires Inv(r)
    ensures Inv(Run(r, evs))
    ensures Run(r, evs).content == r.content && Run(r, evs).speed == r.speed
    decreases |evs|
  {
    if evs != [] {
      RunInv(r, evs[..|evs| - 1]);
      StepInv(Run(r, evs[..|evs| - 1]), evs[|evs| - 1]);
    }
  }

  /** What is shown is always a prefix of the content, never longer. */
  lemma DisplayedIsPrefix(r: Reveal)
    requires Inv(r)
    ensures IsPrefix(r.displayed, r.content)
  {
  }

  /** With a positive speed nothing shown is ever taken back: each callback
      extends (or keeps) the shown prefix. */
  lemma StepGrows(r: Reveal, e: Event)
    requires Inv(r) && r.speed > 0 && r.index >= 0
    ensures IsPrefix(r.displayed, Step(r, e).displayed)
    ensures Step(r, e).index >= 0
  {
    if e == StreamFired && r.ticking {
      if r.index < |r.content| {
        JsPrefixGrows(r.content, r.index, r.index + r.speed);
      }
    }
  }

  /** Once the interval is cleared, further callbacks change nothing (the
      cursor interval is gone too, since streaming has stopped). */
  lemma FinishedIsTerminal(r: Reveal, evs: seq<Event>)
    requires Inv(r) && !r.streaming
    ensures Run(r, evs) == r
    ensures !Caret(Run(r, evs))
  {
    FinishedRun(r, evs);
  }

  lemma {:induction false} FinishedRun(r: Reveal, evs: seq<Event>)
    requires Inv(r) && !r.streaming
    ensures Run(r, evs) == r
    decreases |evs|
  {
    if evs != [] {
      FinishedRun(r, evs[..|evs| - 1]);
    }
  }

  /** Revealing ticks needed before the finishing tick: the least k with
      k * speed >= len, i.e. ceil(len / speed). */
  function RevealTicks(len: nat, speed: int): (k: nat)
    requires speed > 0
    decreases len
  {
    if len == 0 then 0
    else 1 + RevealTicks(if len <= speed then 0 else len - speed, speed)
  }

  /** RevealTicks is the ceiling of len / speed. */
  lemma {:induction false} RevealTicksBounds(len: nat, speed: int, k: nat)
    requires speed > 0
    ensures RevealTicks(len, speed) * speed >= len
    ensures k < RevealTicks(len, speed) ==> k * speed < len
    decreases len
  {
    if len > 0 {
      var rest := if len <= speed then 0 else len - speed;
      var t := RevealTicks(rest, speed);
      RevealTicksBounds(rest, speed, if k > 0 then k - 1 else 0);
      assert (t + 1) * speed == t * speed + speed;
      if 0 < k < t + 1 {
        assert k * speed == (k - 1) * speed + speed;
      }
    }
  }

  lemma RevealTicksIsCeiling(len: nat, speed: int)
    requires speed > 0
    ensures RevealTicks(len, speed) == (len + speed - 1) / speed
  {
    var t := RevealTicks(len, speed);
    RevealTicksBounds(len, speed, if t > 0 then t - 1 else 0);
    if t > 0 {
      assert t * speed == (t - 1) * speed + speed;
    }
    DivUnique(len + speed - 1, speed, t);
  }

  /** The quotient is the one t with t * d <= x < t * d + d. */
  lemma DivUnique(x: int, d: int, t: int)
    requires d > 0 && t * d <= x < t * d + d
    ensures x / d == t
  {
    var q, m := x / d, x % d;
    assert x == q * d + m && 0 <= m < d;
    MulOrder(q, t, d);
    MulOrder(t, q, d);
  }

  lemma MulOrder(a: int, b: int, c: int)
    requires c > 0
    ensures a < b ==> a * c + c <= b * c
  {
    if a < b {
      var n := b - a - 1;
      assert b * c == a * c + c + n * c;
      MulNonNegative(n, c);
    }
  }

  lemma {:induction false} MulNonNegative(n: nat, c: nat)
    ensures n * c >= 0
  {
    if n > 0 {
      MulNonNegative(n - 1, c);
      assert n * c == (n - 1) * c + c;
    }
  }

  /** Where a session stands after k stream ticks (cursor ticks aside). */
  predicate AtTick(r: Reveal, content: string, speed: int, k: nat)
    requires speed > 0
  {
    var t := RevealTicks(|content|, speed);
    && r.content == content && r.speed == speed
    && (k <= t ==> r.index == k * speed && r.streaming && r.ticking
                   && r.displayed == JsPrefix(content, k * speed))
    && (k > t ==> r.index == t * speed && !r.streaming && !r.ticking
                  && r.displayed == content && !r.cursor)
  }

  /** One callback moves a session from its position after k stream ticks to
      its position after k + 1 (a stream tick) or k (a cursor tick). */
  lemma AtTickStep(r: Reveal, content: string, speed: int, k: nat, e: Event)
    requires speed > 0 && AtTick(r, content, speed, k)
    ensures AtTick(Step(r, e), content, speed, if e == StreamFired then k + 1 else k)
  {
    var t := RevealTicks(|content|, speed);
    RevealTicksBounds(|content|, speed, k);
    if e == StreamFired && k < t {
      assert (k + 1) * speed == k * speed + speed;
    }
  }

  /** A session's position depends only on how many stream ticks fired. */
  lemma {:induction false} RunPhases(content: string, speed: int, evs: seq<Event>)
    requires speed > 0
    ensures AtTick(Run(Start(content, speed), evs), content, speed, StreamTicks(evs))
    decreases |evs|
  {
    if evs != [] {
      var init := evs[..|evs| - 1];
      RunPhases(content, speed, init);
      AtTickStep(Run(Start(content, speed), init), content, speed, StreamTicks(init), evs[|evs| - 1]);
    }
  }

  /** With a positive speed the session finishes exactly at the stream tick
      after the one whose index reaches the length, i.e. after
      ceil(length / speed) + 1 ticks, and one tick for empty content; before
      that the caret may show, afterwards never. */
  lemma FinishesAfter(content: string, speed: int, evs: seq<Event>)
    requires speed > 0
    ensures !Run(Start(content, speed), evs).streaming
      <==> StreamTicks(evs) >= (|content| + speed - 1) / speed + 1
    ensures !Run(Start(content, speed), evs).streaming ==>
      Run(Start(content, speed), evs).displayed == content
      && !Caret(Run(Start(content, speed), evs))
    ensures content == [] ==>
      (!Run(Start(content, speed), evs).streaming <==> StreamTicks(evs) >= 1)
  {
    RunPhases(content, speed, evs);
    RevealTicksIsCeiling(|content|, speed);
  }

  /** Along any run of a session with positive speed, each callback keeps
      what was shown as a prefix of what is shown next, and both stay
      prefixes of the content. */
  lemma RunGrows(content: string, speed: int, evs: seq<Event>, e: Event)
    requires speed > 0
    ensures IsPrefix(Run(Start(content, speed), evs).displayed, Run(Start(content, speed), evs + [e]).displayed)
    ensures IsPrefix(Run(Start(content, speed), evs + [e]).displayed, content)
  {
    var r := Run(Start(content, speed), evs);
    RunInv(Start(content, speed), evs);
    RunPhases(content, speed, evs);
    var k := StreamTicks(evs);
    var t := RevealTicks(|content|, speed);
    MulNonNegative(if k <= t then k else t, speed);
    StepGrows(r, e);
    StepInv(r, e);
    assert (evs + [e])[..|evs + [e]| - 1] == evs;
  }

  /** With zero or negative speed a non-empty content never finishes: the
      index never passes the length. */
  lemma {:induction false} NeverFinishes(content: string, speed: int, evs: seq<Event>)
    requires speed <= 0 && content != []
    ensures Run(Start(content, speed), evs).streaming
    ensures Run(Start(content, speed), evs).index <= 0
    ensures Run(Start(content, speed), evs).content == content
    ensures Run(Start(content, speed), evs).speed == speed
    decreases |evs|
  {
    if evs != [] {
      NeverFinishes(content, speed, evs[..|evs| - 1]);
    }
  }

  /** The cursor flips only while streaming and changes nothing else. */
  lemma CursorBlinks(r: Reveal)
    ensures CursorStep(r).cursor != r.cursor <==> r.streaming
    ensures CursorStep(r).(cursor := r.cursor) == r
  {
  }

  /**
   * The view's state as the component holds it: the props the effect
   * depends on, its closure's index, the three state values, and whether
   * the stream interval is set. The interval length only paces the ticks.
   */
  class StreamingView {
    var content: string
    var speed: int
    var interval: int
    var currentIndex: int
    var displayedContent: string
    var isStreaming: bool
    var showCursor: bool
    var intervalActive: bool

    function State(): Reveal
      reads this
    {
      Reveal(content, speed, currentIndex, displayedContent, isStreaming, showCursor, intervalActive)
    }

    ghost predicate Valid()
      reads this
    {
      Inv(State())
    }

    /** Mounting: initial state, then the effect's first run. */
    constructor (content: string, speed: int, interval: int)
      ensures State() == Start(content, speed) && this.interval == interval
      ensures Valid()
    {
      this.content := content;
      this.speed := speed;
      this.interval := interval;
      currentIndex := 0;
      displayedContent := "";
      isStreaming := true;
      showCursor := true;
      intervalActive := true;
    }

    /** The effect re-runs when content, speed or interval change: the old
        interval is cleared and a fresh session begins. */
    method Restart(content: string, speed: int, interval: int)
      modifies this
      ensures State() == Start(content, speed) && this.interval == interval
      ensures Valid()
    {
      // The cleanup's `clearInterval` and the new `setInterval` leave one
      // interval set, so only the final value of the flag is written.
      this.content := content;
      this.speed := speed;
      this.interval := interval;
      displayedContent := "";
      isStreaming := true;
      showCursor := true;
      currentIndex := 0;
      intervalActive := true;
    }

    /** The stream interval's callback. */
    method Tick()
      requires Valid()
      modifies this
      ensures State() == TickStep(old(State())) && interval == old(interval)
      ensures Valid()
      ensures isStreaming ==> old(isStreaming)
    {
      if intervalActive {
        if currentIndex < |content| {
          var nextChunk := JsPrefix(content, currentIndex + speed);
          displayedContent := nextChunk;
          currentIndex := currentIndex + speed;
        } else {
          displayedContent := content;
          isStreaming := false;
          showCursor := false;
          intervalActive := false;
        }
      }
      StepInv(old(State()), StreamFired);
    }

    /** The cursor interval's callback; the interval exists only while
        streaming. */
    method CursorTick()
      requires Valid()
      modifies this
      ensures State() == CursorStep(old(State())) && interval == old(interval)
      ensures Valid()
    {
      if isStreaming {
        showCursor := !showCursor;
      }
      StepInv(old(State()), CursorFired);
    }

    /** Whether the caret is rendered after the content. */
    method CaretVisible() returns (b: bool)
      requires Valid()
      ensures b <==> isStreaming && showCursor
      ensures b ==> displayedContent == JsPrefix(content, currentIndex)
    {
      b := isStreaming && showCursor;
    }
  }
}
