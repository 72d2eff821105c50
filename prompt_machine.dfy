/**
 The prompt machine: a two-state workflow (hidden, displayed) whose context is
 the message shown. DISPLAY_PROMPT shows a message, HIDE_PROMPT clears it; an
 event the current state has no handler for is ignored.
 */
module PromptMachine {

  datatype State = Hidden | Displayed

  datatype Context = Context(message: string)
  {
    /** updateMessage: the context takes the event's message. */
    function UpdateMessage(m: string): (r: Context)
      ensures r.message == m
    {
      Context(m)
    }

    /** clearMessage: the message becomes empty. */
    function ClearMessage(): (r: Context)
      ensures r.message == ""
    {
      Context("")
    }
  }

  datatype Event = DisplayPrompt(message: string) | HidePrompt

  datatype Config = Config(state: State, ctx: Context)

  /** The prompt starts hidden, holding no message. */
  function InitialConfig(): (r: Config)
    ensures r.state == Hidden && r.ctx.message == ""
  {
    Config(Hidden, Context(""))
  }

  /** The prompt's invariant: a hidden prompt holds no message. */
  predicate HiddenIsCleared(c: Config)
  {
    c.state == Hidden ==> c.ctx.message == ""
  }

  /**
   The transition table: DISPLAY_PROMPT is handled only in hidden and
   HIDE_PROMPT only in displayed.
   */
  function Step(c: Config, e: Event): (r: Config)
    ensures HiddenIsCleared(c) ==> HiddenIsCleared(r)
    ensures r.state == Displayed && r != c ==> e == DisplayPrompt(r.ctx.message)
    ensures r.state == Hidden && r != c ==> r.ctx.message == ""
  {
    match c.state
    case Hidden =>
      (match e
       case DisplayPrompt(m) => Config(Displayed, c.ctx.UpdateMessage(m))
       case HidePrompt => c)
    case Displayed =>
      (match e
       case HidePrompt => Config(Hidden, c.ctx.ClearMessage())
       case DisplayPrompt(_) => c)
  }

  /** The machine processing events one at a time, in arrival order. */
  function Run(c: Config, events: seq<Event>): (r: Config)
    ensures HiddenIsCleared(c) ==> HiddenIsCleared(r)
    decreases |events|
  {
    if events == [] then c else Run(Step(c, events[0]), events[1..])
  }

  /** The prompt starts hidden with an empty message, so it starts in its invariant. */
  lemma InitialConfigShape()
    ensures InitialConfig().state == Hidden && InitialConfig().ctx.message == ""
    ensures HiddenIsCleared(InitialConfig())
  {
  }

  /** DISPLAY_PROMPT in hidden shows the prompt with the event's message. */
  lemma DisplayFromHidden(c: Config, m: string)
    requires c.state == Hidden
    ensures Step(c, DisplayPrompt(m)) == Config(Displayed, Context(m))
  {
  }

  /** HIDE_PROMPT in displayed hides the prompt and clears the message. */
  lemma HideFromDisplayed(c: Config)
    requires c.state == Displayed
    ensures Step(c, HidePrompt) == Config(Hidden, Context(""))
  {
  }

  /** HIDE_PROMPT in hidden and DISPLAY_PROMPT in displayed are ignored. */
  lemma UnhandledIgnored(c: Config, e: Event)
    requires (c.state == Hidden && e == HidePrompt) || (c.state == Displayed && e.DisplayPrompt?)
    ensures Step(c, e) == c
  {
  }

  /** Every reachable configuration keeps the invariant. */
  lemma ReachableHiddenIsCleared(events: seq<Event>)
    ensures HiddenIsCleared(Run(InitialConfig(), events))
  {
  }

  /** Showing a message and then hiding it returns a hidden prompt to the initial configuration. */
  lemma DisplayThenHide(c: Config, m: string)
    requires c.state == Hidden
    ensures Run(c, [DisplayPrompt(m), HidePrompt]) == InitialConfig()
  {
    var es := [DisplayPrompt(m), HidePrompt];
    var c1 := Step(c, DisplayPrompt(m));
    var c2 := Step(c1, HidePrompt);
    assert es[1..] == [HidePrompt] && es[1..][1..] == [];
    assert Run(c1, es[1..]) == Run(c2, []);
  }
}
