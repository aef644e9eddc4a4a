/**
 The browser side (static/js/script.js): the guard in front of every
 submission, the character counter, the input handler and the word count
 shown under a rendered blog.

 The page keeps two pieces of state that matter here: the time of the
 last request that went out (initially 0) and whether the validation
 message is on screen. Submitting trims the textarea's value and refuses it
 when empty or longer than 600 characters, showing the message; otherwise,
 if less than 3000 ms have passed since the last request, it asks the user
 to wait a whole number of seconds; otherwise it records the time, hides the
 message and sends the trimmed prompt. The clock is a parameter.
 */
module SubmitGate {
  import opened Text
  import Words
  import Auditor
  import Handler
  import Options

  const MaxPromptLength: nat := 600
  const Cooldown: int := 3000
  const MillisPerSecond: int := 1000

  /** The page's state: `lastRequestTime` and whether the validation
      message is displayed. */
  datatype Gate = Gate(lastRequestTime: int, validationShown: bool)

  const Initial := Gate(0, false)

  /** What a submission does: refuse the prompt, ask the user to wait so
      many seconds, or send this prompt to the server. */
  datatype Outcome = Rejected | Wait(seconds: int) | Send(prompt: string)

  datatype Step = Step(outcome: Outcome, gate: Gate)

  /** `Math.ceil(a / b)` for a positive divisor. */
  function CeilDiv(a: int, b: int): (q: int)
    requires b > 0
    ensures (q - 1) * b < a <= q * b
  {
    var d := (-a) / b;
    var r := (-a) % b;
    assert -a == d * b + r && 0 <= r < b;
    -d
  }

  /** The rule a prompt must meet before it may leave the page: between
      1 and 600 characters once trimmed. */
  predicate PromptInRange(p: string) {
    0 < |p| <= MaxPromptLength
  }

  /** The submit handler. */
  function Submit(g: Gate, value: string, now: int): (s: Step)
    ensures s.outcome.Rejected? <==> !PromptInRange(Trim(value))
    ensures s.outcome.Rejected? ==> s.gate == Gate(g.lastRequestTime, true)
    ensures s.outcome.Wait? <==> PromptInRange(Trim(value)) && now - g.lastRequestTime < Cooldown
    ensures s.outcome.Wait? ==>
      && s.gate == g
      && (s.outcome.seconds - 1) * MillisPerSecond < Cooldown - (now - g.lastRequestTime)
      && Cooldown - (now - g.lastRequestTime) <= s.outcome.seconds * MillisPerSecond
    ensures s.outcome.Send? ==>
      && s.outcome.prompt == Trim(value)
      && s.gate == Gate(now, false)
      && now - g.lastRequestTime >= Cooldown
  {
    var prompt := Trim(value);
    if |prompt| == 0 || |prompt| > MaxPromptLength then
      Step(Rejected, g.(validationShown := true))
    else if now - g.lastRequestTime < Cooldown then
      Step(Wait(CeilDiv(Cooldown - (now - g.lastRequestTime), MillisPerSecond)), g)
    else
      Step(Send(prompt), Gate(now, false))
  }

  /** On a freshly loaded page a valid prompt goes out at the first press,
      as long as the clock reads at least 3000 ms (`Date.now()` counts
      from 1970, so it always does). */
  lemma FirstPressSends(value: string, now: int)
    requires PromptInRange(Trim(value)) && now >= Cooldown
    ensures Submit(Initial, value, now) == Step(Send(Trim(value)), Gate(now, false))
  {
  }

  /** While the clock has not gone back since the last request, the wait
      asked for is one, two or three seconds. */
  lemma WaitIsAtMostThreeSeconds(g: Gate, value: string, now: int)
    requires g.lastRequestTime <= now
    requires Submit(g, value, now).outcome.Wait?
    ensures 1 <= Submit(g, value, now).outcome.seconds <= 3
  {
  }

  /** A prompt sent to the server is trimmed and within the length range. */
  lemma SentPromptInRange(g: Gate, value: string, now: int)
    requires Submit(g, value, now).outcome.Send?
    ensures var p := Submit(g, value, now).outcome.prompt;
      Bordered(p) && PromptInRange(p)
  {
  }

  /** The two gates disagree: a prompt of 1 to 19 characters passes the
      page's check and is then refused by the server with status 400,
      without any request to the completion service. */
  lemma ShortSentPromptRefused(g: Gate, value: string, now: int, ask: Handler.Request -> Handler.Reply)
    requires Submit(g, value, now).outcome.Send?
    requires |Trim(value)| < Handler.MinPromptLength
    ensures var x := Handler.Post(Options.Some(Submit(g, value, now).outcome.prompt), ask);
      x.response.status == Handler.StatusBadRequest && x.requests == []
  {
  }

  /** The character counter's colour. */
  datatype CounterClass = Warning | Error | Success

  /** `updateCharCounter`: classes the raw, untrimmed value. */
  function Classify(value: string): (c: CounterClass)
    ensures c == Warning <==> |value| == 0
    ensures c == Error <==> |value| > MaxPromptLength
    ensures c == Success <==> PromptInRange(value)
  {
    if |value| == 0 then Warning
    else if |value| > MaxPromptLength then Error
    else Success
  }

  /** The `input` handler: it hides the validation message when the raw
      length is in range and otherwise leaves it as it was; it never shows
      it and never touches the request time. */
  function OnInput(g: Gate, value: string): (h: Gate)
    ensures h.lastRequestTime == g.lastRequestTime
    ensures h.validationShown <==> g.validationShown && Classify(value) != Success
  {
    if 0 < |value| <= MaxPromptLength then g.(validationShown := false) else g
  }

  /** The counter reads the raw value and the submit handler the trimmed
      one, so they can disagree. A value of nothing but whitespace is
      coloured as fine, yet submitting it is refused. */
  lemma BlankValueLooksFine(g: Gate, value: string, now: int)
    requires AllWs(value) && 0 < |value| <= MaxPromptLength
    ensures Classify(value) == Success
    ensures Submit(g, value, now).outcome == Rejected
  {
  }

  /** And a prompt padded with whitespace beyond 600 characters is coloured
      as too long, yet it is sent once the cooldown has passed. */
  lemma PaddedPromptLooksTooLong(g: Gate, a: string, p: string, b: string, now: int)
    requires AllWs(a) && AllWs(b) && Bordered(p) && PromptInRange(p)
    requires |a| + |p| + |b| > MaxPromptLength
    requires now - g.lastRequestTime >= Cooldown
    ensures Classify(a + p + b) == Error
    ensures Submit(g, a + p + b, now).outcome == Send(p)
  {
    TrimIsUnique(a, p, b);
  }

  /** What the user does: type, or press the button at a given time. */
  datatype Event = Input(value: string) | Press(value: string, now: int)

  /** A prompt that left the page, and when. */
  datatype Sent = Sent(prompt: string, time: int)

  /** Every prompt sent is trimmed and within the length range. */
  predicate AllInRange(sends: seq<Sent>) {
    forall k :: 0 <= k < |sends| ==> PromptInRange(sends[k].prompt) && Bordered(sends[k].prompt)
  }

  /** Consecutive requests are at least the cooldown apart. */
  predicate Spaced(sends: seq<Sent>) {
    forall k :: 0 < k < |sends| ==> sends[k].time - sends[k - 1].time >= Cooldown
  }

  /** Prepending a request that precedes the rest by the cooldown keeps
      both properties. */
  lemma Prepend(s: Sent, rest: seq<Sent>)
    requires PromptInRange(s.prompt) && Bordered(s.prompt)
    requires AllInRange(rest) && Spaced(rest)
    requires |rest| > 0 ==> rest[0].time - s.time >= Cooldown
    ensures AllInRange([s] + rest) && Spaced([s] + rest)
  {
    var all := [s] + rest;
    assert forall k :: 0 < k < |all| ==> all[k] == rest[k - 1];
  }

  /** Play a sequence of events from a state: the final state and every
      prompt sent, in order. At most one prompt leaves per event. */
  function Run(g: Gate, events: seq<Event>): (r: (Gate, seq<Sent>))
    ensures |r.1| <= |events|
    ensures |events| == 0 ==> r == (g, [])
    decreases |events|
  {
    if |events| == 0 then (g, [])
    else
      match events[0]
      case Input(v) => Run(OnInput(g, v), events[1..])
      case Press(v, now) =>
        var s := Submit(g, v, now);
        var rest := Run(s.gate, events[1..]);
        if s.outcome.Send? then (rest.0, [Sent(s.outcome.prompt, now)] + rest.1)
        else rest
  }

  /** Over any run, every prompt sent is trimmed and within range,
      consecutive requests are at least the cooldown apart, the first comes
      at least the cooldown after the starting time, and the final state
      holds the time of the last one. */
  lemma {:induction false} RunKeepsCooldown(g: Gate, events: seq<Event>)
    ensures var r := Run(g, events);
      && AllInRange(r.1) && Spaced(r.1)
      && (|r.1| == 0 ==> r.0.lastRequestTime == g.lastRequestTime)
      && (|r.1| > 0 ==>
            && r.1[0].time - g.lastRequestTime >= Cooldown
            && r.0.lastRequestTime == r.1[|r.1| - 1].time)
    decreases |events|
  {
    if |events| > 0 {
      match events[0]
      case Input(v) =>
        RunKeepsCooldown(OnInput(g, v), events[1..]);
      case Press(v, now) =>
        var s := Submit(g, v, now);
        RunKeepsCooldown(s.gate, events[1..]);
        var rest := Run(s.gate, events[1..]);
        if s.outcome.Send? {
          Prepend(Sent(s.outcome.prompt, now), rest.1);
          assert ([Sent(s.outcome.prompt, now)] + rest.1)[0].time == now;
        }
    }
  }

  /** However the clock behaves, any two requests that left the page are
      at least 3000 ms apart for every request in between. */
  lemma {:induction false} RequestsSpacedOut(g: Gate, events: seq<Event>, i: nat, j: nat)
    requires i <= j < |Run(g, events).1|
    ensures Run(g, events).1[j].time - Run(g, events).1[i].time >= Cooldown * (j - i)
    decreases j - i
  {
    if i < j {
      RunKeepsCooldown(g, events);
      RequestsSpacedOut(g, events, i, j - 1);
    }
  }

  /** The word count shown under a rendered blog: the length of
      `text.trim().split(/\s+/)`. */
  function DisplayedWordCount(text: string): (n: nat)
    ensures n >= 1
  {
    |Words.SplitRuns(Trim(text))|
  }

  /** The page counts the words as the server does, except that an empty
      blog still shows one word. */
  lemma DisplayedMatchesServerCount(text: string)
    ensures AllWs(text) ==> DisplayedWordCount(text) == 1 && Auditor.WordCount(Trim(text)) == 0
    ensures !AllWs(text) ==> DisplayedWordCount(text) == Auditor.WordCount(Trim(text))
  {
    Words.SplitsAgreeOnBordered(Trim(text));
  }

  /** So a displayed count above 900 is exactly the auditor's length
      signal. */
  lemma DisplayedOverLimit(text: string)
    ensures DisplayedWordCount(text) > Auditor.WordLimit <==> Auditor.WordCount(Trim(text)) > Auditor.WordLimit
  {
    DisplayedMatchesServerCount(text);
  }
}
