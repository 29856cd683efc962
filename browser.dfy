/** The decision and string logic of the sample host's `Browser`: URL
    normalisation, page instrumentation, the message counter with its
    type-to-class mapping, the debug port kept in the script state, and the
    enabling of the history menu items. The script state is a map from key to
    number whose lookups take a default; the bridge that owns it is not part
    of this model, so whether it is debugging and the state string it renders
    are parameters. */
module BrowserHost {
  import opened Strings
  import opened Wrappers

  /** A Java `int`. */
  type Int32 = x: int | -0x8000_0000 <= x < 0x8000_0000

  /** Java `int` arithmetic: the result taken modulo 2^32 into the signed
      range. */
  function Wrap32(x: int): (r: Int32)
    ensures (x - r) % 0x1_0000_0000 == 0
    ensures -0x8000_0000 <= x < 0x8000_0000 ==> r == x
  {
    (x + 0x8000_0000) % 0x1_0000_0000 - 0x8000_0000
  }

  /* ------------------------------------------------------------------ */
  /* getUrl                                                              */
  /* ------------------------------------------------------------------ */

  const Scheme := "://"

  /** `getUrl(text)`: a location without a scheme separator gets "http://". */
  function GetUrl(text: string): string {
    if !Contains(text, Scheme) then "http://" + text else text
  }

  /** The result always has a scheme separator. */
  lemma GetUrlHasScheme(text: string)
    ensures Contains(GetUrl(text), Scheme)
  {
    if !Contains(text, Scheme) {
      assert OccursAt("http://" + text, Scheme, 4);
    }
  }

  /** "http://" is prefixed exactly when the text has no scheme separator, and
      a text with one is returned as it is. */
  lemma GetUrlPrefixesExactly(text: string)
    ensures GetUrl(text) == "http://" + text <==> !Contains(text, Scheme)
    ensures Contains(text, Scheme) ==> GetUrl(text) == text
  {
    if Contains(text, Scheme) {
      assert |GetUrl(text)| != |"http://" + text|;
    }
  }

  /** Normalising twice is normalising once. */
  lemma GetUrlIdempotent(text: string)
    ensures GetUrl(GetUrl(text)) == GetUrl(text)
  {
    GetUrlHasScheme(text);
  }

  /* ------------------------------------------------------------------ */
  /* instrumentHtml                                                      */
  /* ------------------------------------------------------------------ */

  const HeadTag := "<head>"
  /** The helper script tag that follows `<head>` when not debugging. */
  const HelperScript := "<script src=\"markdown-navigator.js\">" + "</script>"
  const HeadScript := HeadTag + "\n" + HelperScript
  const BodyTag := "<body>"

  /** What replaces each `<body>` when there is state to inject. */
  function StateScript(stateString: string): string {
    BodyTag + "\n<script>\n" + stateString + "\n</script>"
  }

  /** The state provider exists and its state is not empty. */
  predicate HasState(state: Option<map<string, int>>) {
    state.Some? && state.value != map[]
  }

  /** `instrumentHtml(html)`: `debugging` is the bridge's `isDebugging()`,
      `state` the provider's state (None without a provider) and
      `stateString` the bridge's rendering of it. */
  function InstrumentHtml(html: string, debugging: bool, state: Option<map<string, int>>, stateString: string): string {
    var withHead := if !debugging then Replace(html, HeadTag, HeadScript) else html;
    if HasState(state) then Replace(withHead, BodyTag, StateScript(stateString)) else withHead
  }

  /** The page comes back unchanged exactly when neither rewrite applies:
      debugging or no `<head>`, and no state or no `<body>`. */
  lemma InstrumentHtmlUnchanged(html: string, debugging: bool, state: Option<map<string, int>>, stateString: string)
    ensures InstrumentHtml(html, debugging, state, stateString) == html
      <==> (debugging || !Contains(html, HeadTag)) && (!HasState(state) || !Contains(html, BodyTag))
  {
    var withHead := if !debugging then Replace(html, HeadTag, HeadScript) else html;
    var r := InstrumentHtml(html, debugging, state, stateString);
    if !debugging && Contains(html, HeadTag) {
      ReplaceGrows(html, HeadTag, HeadScript);
      if HasState(state) {
        ReplaceNotShorter(withHead, BodyTag, StateScript(stateString));
      }
      assert |r| > |html|;
    } else {
      if !debugging {
        ReplaceAbsent(html, HeadTag, HeadScript);
      }
      assert withHead == html;
      if HasState(state) {
        if Contains(html, BodyTag) {
          ReplaceGrows(html, BodyTag, StateScript(stateString));
          assert |r| > |html|;
        } else {
          ReplaceAbsent(html, BodyTag, StateScript(stateString));
        }
      }
    }
  }

  /** When debugging, the page is left alone unless there is state to inject
      and a `<body>` to inject it after. */
  lemma InstrumentHtmlDebuggingKeepsHead(html: string, state: Option<map<string, int>>, stateString: string)
    ensures !HasState(state) ==> InstrumentHtml(html, true, state, stateString) == html
    ensures HasState(state) ==>
      InstrumentHtml(html, true, state, stateString) == Replace(html, BodyTag, StateScript(stateString))
  {
  }

  /** `<head>` and `<body>` cannot overlap, and neither can the helper script
      tag and `<body>`. */
  lemma TagsApart()
    ensures Apart(BodyTag, HeadTag)
    ensures Apart(HeadScript, BodyTag)
  {
    assert HeadTag[1..] == "head>";
    assert BodyTag[1..] == "body>";
    assert 'b' !in "<script src=\"markdown-navigator.js\">";
    assert 'b' !in HelperScript;
  }

  /** When not debugging, a page with a `<head>` gets the helper script, with
      or without state to inject. */
  lemma InstrumentHtmlAddsHeadScript(html: string, state: Option<map<string, int>>, stateString: string)
    requires Contains(html, HeadTag)
    ensures Contains(InstrumentHtml(html, false, state, stateString), HeadScript)
  {
    ReplaceInserts(html, HeadTag, HeadScript);
    if HasState(state) {
      TagsApart();
      ReplaceKeepsApart(Replace(html, HeadTag, HeadScript), BodyTag, StateScript(stateString), HeadScript);
    }
  }

  /** With state to inject, a page with a `<body>` gets the state script,
      whether or not its `<head>` is rewritten first. */
  lemma InstrumentHtmlAddsState(html: string, debugging: bool, state: Option<map<string, int>>, stateString: string)
    requires HasState(state) && Contains(html, BodyTag)
    ensures Contains(InstrumentHtml(html, debugging, state, stateString), StateScript(stateString))
  {
    var withHead := if !debugging then Replace(html, HeadTag, HeadScript) else html;
    if !debugging {
      TagsApart();
      ReplaceKeepsApart(html, HeadTag, HeadScript, BodyTag);
    }
    ReplaceInserts(withHead, BodyTag, StateScript(stateString));
  }

  /* ------------------------------------------------------------------ */
  /* addMessage                                                          */
  /* ------------------------------------------------------------------ */

  const PlainPrefix := "<span class='msg'>"

  /** The switch on the message type in `addMessage`. */
  function MessagePrefix(messageType: string): string {
    match messageType
    case "warn" => "<span class='msg warn'>"
    case "error" => "<span class='msg error'>"
    case "debug" => "<span class='msg debug'>"
    case _ => PlainPrefix
  }

  /** Exactly the types other than "warn", "error" and "debug" (among them
      "log") get the plain class, and the three get three different
      prefixes. */
  lemma MessagePrefixClasses(messageType: string)
    ensures MessagePrefix(messageType) == PlainPrefix <==> messageType !in {"warn", "error", "debug"}
    ensures MessagePrefix("warn") != MessagePrefix("error")
    ensures MessagePrefix("warn") != MessagePrefix("debug")
    ensures MessagePrefix("error") != MessagePrefix("debug")
  {
  }

  /** The text logged for message number `count`. */
  function CountedMessage(count: Int32, message: string): string {
    "[" + IntToString(count) + "]" + message
  }

  /** Different counts give different logged texts for the same message. */
  lemma CountedMessageInjective(a: Int32, b: Int32, message: string)
    requires CountedMessage(a, message) == CountedMessage(b, message)
    ensures a == b
  {
    var sa := IntToString(a);
    var sb := IntToString(b);
    var ca := CountedMessage(a, message);
    assert ca == "[" + sa + "]" + message == "[" + sb + "]" + message;
    IntToStringNoBracket(a);
    IntToStringNoBracket(b);
    if |sa| == |sb| {
      assert sa == ca[1..1 + |sa|] == sb;
      IntToStringInjective(a, b);
    }
  }

  /** The decimal rendering of an integer holds no ']'. */
  lemma IntToStringNoBracket(i: int)
    ensures forall k :: 0 <= k < |IntToString(i)| ==> IntToString(i)[k] != ']'
  {
    if i < 0 {
      assert IntToString(i) == "-" + NatToString(-i);
    }
  }

  /* ------------------------------------------------------------------ */
  /* The debug port and the port menu                                    */
  /* ------------------------------------------------------------------ */

  const PortKey := "debugPort"
  const DefaultPort := 51723

  /** `getState().getJsNumber("debugPort").intValue(51723)`. */
  function PortIn(state: map<string, int>): int {
    if PortKey in state then state[PortKey] else DefaultPort
  }

  /** The texts `updatePortMenu` shows: the port, and the ports the two
      actions change to. */
  function PortMenuTexts(port: Int32): (string, string, string) {
    ("Port: " + IntToString(port),
     "Change to: " + IntToString(Wrap32(port - 1)),
     "Change to: " + IntToString(Wrap32(port + 1)))
  }

  /** The back and forward items of `updateHistoryButtons`: whether each is
      disabled. */
  function HistoryButtons(currentIndex: int, entryCount: int): (bool, bool) {
    (currentIndex == 0, currentIndex + 1 >= entryCount)
  }

  /** In a history whose current index is one of its entries, "Go Back" is
      enabled exactly when there is an earlier entry and "Go Forward" exactly
      when there is a later one; both are disabled only for a single-entry
      history. */
  lemma HistoryButtonsMatchEntries(currentIndex: int, entryCount: int)
    requires 0 <= currentIndex < entryCount
    ensures var (backDisabled, forwardDisabled) := HistoryButtons(currentIndex, entryCount);
      && (!backDisabled <==> 0 <= currentIndex - 1)
      && (!forwardDisabled <==> currentIndex + 1 < entryCount)
      && (backDisabled && forwardDisabled <==> entryCount == 1)
  {
  }

  /** The host's counters and the script state it keeps the port in. */
  class Browser {
    var myMessageCount: Int32
    /** The state provider's state; None when there is no provider. */
    var state: Option<map<string, int>>

    constructor (initialState: Option<map<string, int>>)
      ensures myMessageCount == 0 && state == initialState
    {
      myMessageCount := 0;
      state := initialState;
    }

    /** `addMessage(type, message)`: the counter goes up by one, with Java's
        wrap-around; returns the printed counted text and the prefix of the
        logged line. */
    method AddMessage(messageType: string, message: string) returns (countedMessage: string, prefix: string)
      modifies this`myMessageCount
      ensures myMessageCount == Wrap32(old(myMessageCount) + 1)
      ensures countedMessage == CountedMessage(myMessageCount, message)
      ensures prefix == MessagePrefix(messageType)
    {
      myMessageCount := Wrap32(myMessageCount + 1);
      countedMessage := "[" + IntToString(myMessageCount) + "]" + message;
      match messageType {
        case "warn" => prefix := "<span class='msg warn'>";
        case "error" => prefix := "<span class='msg error'>";
        case "debug" => prefix := "<span class='msg debug'>";
        case _ => prefix := PlainPrefix;
      }
    }

    /** `addMessage(message)`: a message of type "log". */
    method AddLogMessage(message: string) returns (countedMessage: string, prefix: string)
      modifies this`myMessageCount
      ensures myMessageCount == Wrap32(old(myMessageCount) + 1)
      ensures countedMessage == CountedMessage(myMessageCount, message)
      ensures prefix == PlainPrefix
    {
      countedMessage, prefix := AddMessage("log", message);
    }

    /** `getPort()`: the stored port, or 51723 when none is stored. */
    function GetPort(): int
      requires state.Some?
      reads this
    {
      PortIn(state.value)
    }

    /** `setPort(port)`: stores the port and nothing else. */
    method SetPort(port: Int32)
      requires state.Some?
      modifies this`state
      ensures state == Some(old(state.value)[PortKey := port])
      ensures GetPort() == port
      ensures forall key :: key != PortKey ==> (key in state.value <==> key in old(state.value))
      ensures forall key :: key != PortKey && key in state.value ==> state.value[key] == old(state.value)[key]
    {
      state := Some(state.value[PortKey := port]);
    }

    /** The "decrement port" menu action: the port moves to the one the
        decrement item named. */
    method DecrementPort()
      requires state.Some?
      modifies this`state
      ensures state == Some(old(state.value)[PortKey := Wrap32(old(GetPort()) - 1)])
      ensures GetPort() == Wrap32(old(GetPort()) - 1)
      ensures -0x8000_0000 <= old(GetPort()) < 0x8000_0000 ==>
        PortMenuTexts(old(GetPort())).1 == "Change to: " + IntToString(GetPort())
    {
      SetPort(Wrap32(GetPort() - 1));
    }

    /** The "increment port" menu action: the port moves to the one the
        increment item named. */
    method IncrementPort()
      requires state.Some?
      modifies this`state
      ensures state == Some(old(state.value)[PortKey := Wrap32(old(GetPort()) + 1)])
      ensures GetPort() == Wrap32(old(GetPort()) + 1)
      ensures -0x8000_0000 <= old(GetPort()) < 0x8000_0000 ==>
        PortMenuTexts(old(GetPort())).2 == "Change to: " + IntToString(GetPort())
    {
      SetPort(Wrap32(GetPort() + 1));
    }
  }

  /** Without a stored port the default is used; a stored port is read back;
      storing a port does not change any other key. */
  lemma PortStore(state: map<string, int>, port: Int32)
    ensures PortKey !in state ==> PortIn(state) == DefaultPort
    ensures PortIn(state[PortKey := port]) == port
    ensures forall key :: key != PortKey && key in state ==> state[PortKey := port][key] == state[key]
  {
  }

  /** The menu labels name the ports the actions move to: each "Change to: "
      item shows what the port label shows once that action has run, at every
      port; away from the edges of the int range that is the port one lower
      (higher), and at the edges it is the port on the other side of the
      wrap. */
  lemma PortMenuMatchesActions(port: Int32)
    ensures PortMenuTexts(port).1 == "Change to: " + PortMenuTexts(Wrap32(port - 1)).0[|"Port: "|..]
    ensures PortMenuTexts(port).2 == "Change to: " + PortMenuTexts(Wrap32(port + 1)).0[|"Port: "|..]
    ensures -0x8000_0000 < port ==> PortMenuTexts(port).1 == "Change to: " + IntToString(port - 1)
    ensures port < 0x7fff_ffff ==> PortMenuTexts(port).2 == "Change to: " + IntToString(port + 1)
    ensures -0x8000_0000 < port ==> PortMenuTexts(Wrap32(port - 1)).0 == "Port: " + IntToString(port - 1)
    ensures port < 0x7fff_ffff ==> PortMenuTexts(Wrap32(port + 1)).0 == "Port: " + IntToString(port + 1)
    ensures port == -0x8000_0000 ==> PortMenuTexts(port).1 == "Change to: " + IntToString(0x7fff_ffff)
    ensures port == 0x7fff_ffff ==> PortMenuTexts(port).2 == "Change to: " + IntToString(-0x8000_0000)
  {
    var down := IntToString(Wrap32(port - 1));
    var up := IntToString(Wrap32(port + 1));
    assert ("Port: " + down)[|"Port: "|..] == down;
    assert ("Port: " + up)[|"Port: "|..] == up;
  }
}
