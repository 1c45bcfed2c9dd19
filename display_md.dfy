/**
 * The streaming markdown view with scroll controls: its props and their
 * defaults, the streaming session it runs, the line-range guard of
 * `scrollToLine`, and the fallback of the line-number input.
 */
module DisplayMD {
  import opened Wrappers
  import opened Streaming

  const DefaultSpeed := 5
  const DefaultInterval := 30

  /** The props; an absent optional prop is `undefined`. */
  datatype Props = Props(content: string, streamingSpeed: Option<int>, streamingInterval: Option<int>)

  /** A default parameter applies only when the prop is `undefined`. */
  function OrDefault(p: Option<int>, default: int): (r: int)
    ensures p.Some? ==> r == p.value
    ensures p.None? ==> r == default
  {
    match p
    case Some(x) => x
    case None => default
  }

  function Speed(p: Props): int {
    OrDefault(p.streamingSpeed, DefaultSpeed)
  }

  function Interval(p: Props): int {
    OrDefault(p.streamingInterval, DefaultInterval)
  }

  /** The session the streaming effect starts for the given props. */
  function Session(p: Props): Reveal {
    Start(p.content, Speed(p))
  }

  /** With the default props the view reveals five characters per tick every
      30 ms, and finishes at stream tick ceil(length / 5) + 1. */
  lemma DefaultSession(content: string, evs: seq<Event>)
    ensures Speed(Props(content, None, None)) == 5 && Interval(Props(content, None, None)) == 30
    ensures !Run(Session(Props(content, None, None)), evs).streaming
      <==> StreamTicks(evs) >= (|content| + 4) / 5 + 1
  {
    FinishesAfter(content, 5, evs);
  }

  /** Mounting the view: the effect runs once with the props. */
  method Mount(p: Props) returns (view: StreamingView)
    ensures fresh(view) && view.Valid()
    ensures view.State() == Session(p) && view.interval == Interval(p)
  {
    view := new StreamingView(p.content, Speed(p), Interval(p));
  }

  // ---------------------------------------------------------------------
  // Lines of the displayed content

  /** `s.split('\n')`: the pieces between newlines, always at least one. */
  function Lines(s: string): (r: seq<string>)
    ensures |r| >= 1
    ensures forall k :: 0 <= k < |r| ==> '\n' !in r[k]
    decreases |s|
  {
    if s == [] then [""]
    else if s[0] == '\n' then [""] + Lines(s[1..])
    else
      var rest := Lines(s[1..]);
      [[s[0]] + rest[0]] + rest[1..]
  }

  function NewlineCount(s: string): (n: nat)
    ensures n <= |s|
    decreases |s|
  {
    if s == [] then 0 else (if s[0] == '\n' then 1 else 0) + NewlineCount(s[1..])
  }

  /** `lines.join('\n')`. */
  function JoinLines(ls: seq<string>): string
    decreases |ls|
  {
    if ls == [] then ""
    else if |ls| == 1 then ls[0]
    else ls[0] + "\n" + JoinLines(ls[1..])
  }

  /** There is one line more than there are newlines. */
  lemma {:induction false} LinesCount(s: string)
    ensures |Lines(s)| == NewlineCount(s) + 1
    decreases |s|
  {
    if s != [] {
      LinesCount(s[1..]);
    }
  }

  /** Joining the lines with `\n` gives back the text. */
  lemma {:induction false} JoinSplit(s: string)
    ensures JoinLines(Lines(s)) == s
    decreases |s|
  {
    if s != [] {
      var rest := Lines(s[1..]);
      JoinSplit(s[1..]);
      if s[0] == '\n' {
        JoinAfterEmpty(rest);
      } else {
        JoinExtendFirst(s[0], rest);
      }
      assert s == [s[0]] + s[1..];
    }
  }

  lemma JoinAfterEmpty(ls: seq<string>)
    requires ls != []
    ensures JoinLines([""] + ls) == "\n" + JoinLines(ls)
  {
    assert ([""] + ls)[1..] == ls;
  }

  lemma JoinExtendFirst(c: char, ls: seq<string>)
    requires ls != []
    ensures JoinLines([[c] + ls[0]] + ls[1..]) == [c] + JoinLines(ls)
  {
    var ms := [[c] + ls[0]] + ls[1..];
    if |ls| > 1 {
      assert ms[1..] == ls[1..];
    }
  }

  /** A newline-free line followed by a newline splits off as the first line. */
  lemma {:induction false} LinesAfterLine(a: string, rest: string)
    requires '\n' !in a
    ensures Lines(a + "\n" + rest) == [a] + Lines(rest)
    ensures Lines(a) == [a]
    decreases |a|
  {
    if a != [] {
      LinesAfterLine(a[1..], rest);
      assert (a + "\n" + rest)[1..] == a[1..] + "\n" + rest;
      assert [a[0]] + a[1..] == a;
    } else {
      assert a + "\n" + rest == "\n" + rest;
      assert ("\n" + rest)[1..] == rest;
    }
  }

  /** Splitting the join of newline-free lines gives back the lines. */
  lemma {:induction false} SplitJoin(ls: seq<string>)
    requires ls != [] && forall k :: 0 <= k < |ls| ==> '\n' !in ls[k]
    ensures Lines(JoinLines(ls)) == ls
    decreases |ls|
  {
    if |ls| == 1 {
      LinesAfterLine(ls[0], "");
    } else {
      SplitJoin(ls[1..]);
      LinesAfterLine(ls[0], JoinLines(ls[1..]));
      assert [ls[0]] + ls[1..] == ls;
    }
  }

  // ---------------------------------------------------------------------
  // scrollToLine and the line-number input

  /** The guard of `scrollToLine(lineNum)`: nothing happens unless both
      containers are mounted and the line exists in the displayed content;
      otherwise the zero-based line the view scrolls to. */
  function ScrollTarget(mounted: bool, displayed: string, lineNum: int): (r: Option<nat>)
    ensures r.Some? ==> r.value < |Lines(displayed)| && r.value + 1 == lineNum
  {
    if !mounted then None
    else
      var lines := Lines(displayed);
      if lineNum < 1 || lineNum > |lines| then None else Some(lineNum - 1)
  }

  /** The view scrolls exactly for line numbers from 1 to the number of
      newlines plus one. */
  lemma ScrollGuard(mounted: bool, displayed: string, lineNum: int)
    ensures ScrollTarget(mounted, displayed, lineNum).Some?
      <==> mounted && 1 <= lineNum <= NewlineCount(displayed) + 1
  {
    LinesCount(displayed);
  }

  /** `parseInt(value) || 1`: a failed parse (`NaN`, here `None`) and 0 are
      both falsy and give 1; any other parsed number is kept, negative ones
      included. */
  function LineInput(parsed: Option<int>): (r: int)
    ensures r != 0
    ensures parsed.Some? && parsed.value != 0 ==> r == parsed.value
    ensures parsed.None? || parsed.value == 0 ==> r == 1
  {
    match parsed
    case Some(n) => if n != 0 then n else 1
    case None => 1
  }

  /** The initial line number and the input's fallback always name a line
      that exists, the first one; a negative entry is ignored by the guard. */
  lemma FallbackLineExists(displayed: string, n: int)
    ensures ScrollTarget(true, displayed, 1) == Some(0)
    ensures ScrollTarget(true, displayed, LineInput(None)) == Some(0)
    ensures ScrollTarget(true, displayed, LineInput(Some(0))) == Some(0)
    ensures n < 0 ==> ScrollTarget(true, displayed, LineInput(Some(n))).None?
  {
  }
}
