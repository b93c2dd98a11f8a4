/**
 * The travel-recommendation chat: two lookup tools, the keyword router that
 * also records what the user says they like, and the non-language-model
 * parts of the weather and places nodes.  A conversation's state is a
 * transcript of messages and an ordered list of recorded preferences.
 */
module Travel {
  import opened PyStr

  // ---------------------------------------------------------------------------
  // Messages and results

  datatype Role = User | Assistant

  /** A chat message: who said it and what was said. */
  datatype Message = Message(role: Role, content: string)

  /** Python's IndexError, raised by `[-1]` on an empty list. */
  datatype NodeError = IndexError

  datatype Result<T> = Ok(value: T) | Err(error: NodeError)

  /** `state["messages"][-1].content.lower()`: the text every node reads. */
  function LastText(messages: seq<Message>): string
    requires messages != []
  {
    Lower(messages[|messages| - 1].content)
  }

  // ---------------------------------------------------------------------------
  // Tools

  const Catalog: map<string, seq<string>> :=
    map["india" := ["Goa", "Manali", "Jaipur"], "france" := ["Paris", "Nice", "Lyon"]]

  /** `catalog.get(key, ['No data'])`. */
  function CatalogGet(key: string): seq<string> {
    if key in Catalog then Catalog[key] else ["No data"]
  }

  const PlacesHeading := "Top places in "

  /** `retrieve_places(country)`: the heading echoes `country` exactly as
      given and the listing depends only on its lower-cased form. */
  function RetrievePlaces(country: string): (r: string)
    ensures |r| >= |PlacesHeading| + |country| + 2
    ensures r[..|PlacesHeading| + |country| + 2] == PlacesHeading + country + ": "
    ensures r[|PlacesHeading| + |country| + 2..] == Join(CatalogGet(Lower(country)), ", ")
  {
    PlacesHeading + country + ": " + Join(CatalogGet(Lower(country)), ", ")
  }

  /** The lookup ignores case: two spellings of a country that lower-case
      alike get the same city list, whatever their headings. */
  lemma RetrievePlacesIgnoresCase(a: string, b: string)
    requires Lower(a) == Lower(b)
    ensures RetrievePlaces(a)[|PlacesHeading| + |a| + 2..] == RetrievePlaces(b)[|PlacesHeading| + |b| + 2..]
  {
  }

  /** Looking up the lower-cased name lists the same cities as looking up
      the name as given, since lower-casing twice changes nothing more. */
  lemma RetrievePlacesLowered(country: string)
    ensures RetrievePlaces(Lower(country))[|PlacesHeading| + |country| + 2..]
            == RetrievePlaces(country)[|PlacesHeading| + |country| + 2..]
  {
    LowerIdempotent(country);
    RetrievePlacesIgnoresCase(Lower(country), country);
  }

  /** Any spelling of India or France gets that country's three cities. */
  lemma RetrievePlacesKnown(country: string)
    requires Lower(country) in Catalog
    ensures Lower(country) == "india" ==>
              RetrievePlaces(country) == PlacesHeading + country + ": " + "Goa, Manali, Jaipur"
    ensures Lower(country) == "france" ==>
              RetrievePlaces(country) == PlacesHeading + country + ": " + "Paris, Nice, Lyon"
  {
  }

  /** A country outside the catalog, in any spelling, lists "No data". */
  lemma RetrievePlacesUnknown(country: string)
    requires Lower(country) !in Catalog
    ensures RetrievePlaces(country) == PlacesHeading + country + ": " + "No data"
  {
  }

  /** "INDIA" and "india" share the city list, but the two replies differ
      because the heading repeats the argument as given. */
  lemma RetrievePlacesEchoesArgument()
    ensures RetrievePlaces("INDIA") == PlacesHeading + "INDIA" + ": " + "Goa, Manali, Jaipur"
    ensures RetrievePlaces("india") == PlacesHeading + "india" + ": " + "Goa, Manali, Jaipur"
    ensures RetrievePlaces("INDIA") != RetrievePlaces("india")
  {
    assert Lower("INDIA") == "india" && Lower("india") == "india";
    RetrievePlacesKnown("INDIA");
    RetrievePlacesKnown("india");
    assert RetrievePlaces("INDIA")[14] != RetrievePlaces("india")[14];
  }

  lemma RetrievePlacesGermany()
    ensures RetrievePlaces("Germany") == PlacesHeading + "Germany" + ": " + "No data"
  {
  }

  const WeatherHeading := "The weather in "
  const WeatherTail := " is sunny 28°C (dummy)."

  /** `weather_info(city)`: a fixed template around the city name. */
  function WeatherInfo(city: string): (r: string)
    ensures |r| == |WeatherHeading| + |city| + |WeatherTail|
    ensures r[..|WeatherHeading|] == WeatherHeading
    ensures r[|WeatherHeading|..|WeatherHeading| + |city|] == city
    ensures r[|WeatherHeading| + |city|..] == WeatherTail
  {
    WeatherHeading + city + WeatherTail
  }

  /** Different cities never get the same weather report. */
  lemma WeatherInfoInjective(a: string, b: string)
    requires WeatherInfo(a) == WeatherInfo(b)
    ensures a == b
  {
  }

  // ---------------------------------------------------------------------------
  // Preferences

  /** `", ".join(preferences) or "none"`. */
  function PreferenceSummary(prefs: seq<string>): (r: string)
    ensures r != ""
    ensures (prefs == [] || prefs == [""]) ==> r == "none"
    ensures !(prefs == [] || prefs == [""]) ==> r == Join(prefs, ", ")
  {
    var joined := Join(prefs, ", ");
    JoinEmptyIff(prefs, ", ");
    if joined == "" then "none" else joined
  }

  /** Recording one more preference extends a non-empty summary by ", "
      and that preference. */
  lemma SummaryAfterRecord(prefs: seq<string>, p: string)
    requires !(prefs == [] || prefs == [""])
    ensures PreferenceSummary(prefs + [p]) == PreferenceSummary(prefs) + ", " + p
  {
    JoinSnoc(prefs, p, ", ");
  }

  const ILike := "i like"

  lemma ILikeSelfOverlapFree()
    ensures SelfOverlapFree(ILike)
  {
    forall k | 0 < k < |ILike| ensures ILike[k..] != ILike[..|ILike| - k] {
      if k == 3 {
        assert ILike[k..][1] != ILike[..|ILike| - k][1];
      } else {
        assert ILike[k..][0] != ILike[..|ILike| - k][0];
      }
    }
  }

  /** `text.split("i like")[-1].strip()`: what the router records. */
  function ExtractPreference(text: string): (pref: string)
    ensures pref == [] || (!IsSpace(pref[0]) && !IsSpace(pref[|pref| - 1]))
    ensures !Contains(pref, ILike)
  {
    var after := SplitLast(text, ILike);
    SplitLastPiece(text, ILike);
    StripKeepsAbsent(after, ILike);
    Strip(after)
  }

  /** The recorded preference is the stripped text after the LAST "i like". */
  lemma PreferenceAfterLastILike(text: string, j: int)
    requires OccursAt(text, ILike, j)
    requires forall i :: j < i ==> !OccursAt(text, ILike, i)
    ensures ExtractPreference(text) == Strip(text[j + |ILike|..])
  {
    ILikeSelfOverlapFree();
    SplitLastAfterLastOccurrence(text, ILike, j);
  }

  // ---------------------------------------------------------------------------
  // Router

  /** Where the graph goes next; `Label` is the name the source returns. */
  datatype Decision = ToLlm | ToWeather | ToPlaces | End {
    function Label(): string {
      match this
      case ToLlm => "llm_node"
      case ToWeather => "weather_node"
      case ToPlaces => "places_node"
      case End => "end"
    }
  }

  /** The router's decision on the lower-cased last message: "i like" first,
      then "weather", then "recommend" or "places", otherwise the end. */
  function Route(text: string): (d: Decision)
    ensures d == ToLlm <==> Mentions(text, ILike)
    ensures d == ToWeather <==> !Mentions(text, ILike) && Mentions(text, "weather")
    ensures d == ToPlaces <==>
              !Mentions(text, ILike) && !Mentions(text, "weather")
              && (Mentions(text, "recommend") || Mentions(text, "places"))
    ensures d == End <==>
              !Mentions(text, ILike) && !Mentions(text, "weather")
              && !Mentions(text, "recommend") && !Mentions(text, "places")
  {
    ContainsIff(text, ILike);
    ContainsIff(text, "weather");
    ContainsIff(text, "recommend");
    ContainsIff(text, "places");
    if Contains(text, ILike) then ToLlm
    else if Contains(text, "weather") then ToWeather
    else if Contains(text, "recommend") || Contains(text, "places") then ToPlaces
    else End
  }

  /** The conversation state the graph threads through its nodes. */
  class TravelState {
    var messages: seq<Message>
    var preferences: seq<string>

    /** A new conversation: the given transcript and no preferences yet. */
    constructor (messages: seq<Message>)
      ensures this.messages == messages && preferences == []
    {
      this.messages := messages;
      preferences := [];
    }

    /** `router(state)`: return the name of the next node; on "i like",
        record the preference that follows it. Nothing else in the state
        changes. */
    method Router() returns (next: string)
      requires messages != []
      modifies this`preferences
      ensures next == Route(LastText(messages)).Label()
      ensures Route(LastText(messages)) == ToLlm ==>
                preferences == old(preferences) + [ExtractPreference(LastText(messages))]
      ensures Route(LastText(messages)) != ToLlm ==> preferences == old(preferences)
    {
      var lastMsg := LastText(messages);
      if Contains(lastMsg, ILike) {
        var pref := Strip(SplitLast(lastMsg, ILike));
        preferences := preferences + [pref];
        return "llm_node";
      }
      if Contains(lastMsg, "weather") {
        return "weather_node";
      }
      if Contains(lastMsg, "recommend") || Contains(lastMsg, "places") {
        return "places_node";
      }
      return "end";
    }
  }

  // ---------------------------------------------------------------------------
  // Nodes

  /** `weather_node(state)`: one report for the last word of the lower-cased
      last message; a blank message has no last word (IndexError). */
  function WeatherNode(messages: seq<Message>): (r: Result<seq<Message>>)
    requires messages != []
    ensures r.Err? <==> AllSpace(LastText(messages))
    ensures r.Ok? ==> exists city :: IsLastWord(LastText(messages), city)
                                     && r.value == [Message(Assistant, WeatherInfo(city))]
  {
    var words := Split(LastText(messages));
    SplitBlank(LastText(messages));
    if words == [] then Err(IndexError)
    else
      SplitLastWord(LastText(messages));
      Ok([Message(Assistant, WeatherInfo(words[|words| - 1]))])
  }

  /** Whenever the router picks the weather node, the node finds a city. */
  lemma WeatherRouteHasCity(messages: seq<Message>)
    requires messages != [] && Route(LastText(messages)) == ToWeather
    ensures WeatherNode(messages).Ok?
  {
  }

  const Countries: seq<string> := ["india", "france"]

  /** The `for c in countries: if c in text: ... break` scan: the first
      candidate that occurs in `text`, or None. */
  method FirstMatch(text: string, candidates: seq<string>) returns (found: Option<string>)
    ensures found.None? ==> forall k :: 0 <= k < |candidates| ==> !Mentions(text, candidates[k])
    ensures found.Some? ==>
              exists k :: 0 <= k < |candidates| && candidates[k] == found.value
                          && Mentions(text, candidates[k])
                          && forall m :: 0 <= m < k ==> !Mentions(text, candidates[m])
  {
    found := None;
    for k := 0 to |candidates|
      invariant found.None?
      invariant forall m :: 0 <= m < k ==> !Mentions(text, candidates[m])
    {
      ContainsIff(text, candidates[k]);
      if Contains(text, candidates[k]) {
        found := Some(candidates[k]);
        break;
      }
    }
  }

  /** What `places_node` hands the language model when no country matches. */
  function NoMatchPrompt(messages: seq<Message>, prefs: seq<string>): seq<Message>
    requires messages != []
  {
    [messages[|messages| - 1],
     Message(Assistant, "(No country match, your preferences so far: " + PreferenceSummary(prefs) + ")")]
  }

  /** `places_node(state)`: one reply; "india" wins over "france", and with
      neither the reply is the responder's answer to the no-match prompt.
      The language model is the parameter `respond`. */
  method PlacesNode(messages: seq<Message>, prefs: seq<string>, respond: seq<Message> -> string)
    returns (reply: seq<Message>)
    requires messages != []
    ensures |reply| == 1 && reply[0].role == Assistant
    ensures Mentions(LastText(messages), "india") ==>
              reply[0].content == RetrievePlaces("india")
    ensures !Mentions(LastText(messages), "india") && Mentions(LastText(messages), "france") ==>
              reply[0].content == RetrievePlaces("france")
    ensures !Mentions(LastText(messages), "india") && !Mentions(LastText(messages), "france") ==>
              reply[0].content == respond(NoMatchPrompt(messages, prefs))
  {
    var text := LastText(messages);
    var country := FirstMatch(text, Countries);
    var msg: string;
    if country.Some? {
      ghost var k :| 0 <= k < |Countries| && Countries[k] == country.value
               && Mentions(text, Countries[k])
               && forall m :: 0 <= m < k ==> !Mentions(text, Countries[m]);
      assert k == 1 ==> !Mentions(text, Countries[0]);
      msg := RetrievePlaces(country.value);
    } else {
      assert !Mentions(text, Countries[0]) && !Mentions(text, Countries[1]);
      msg := respond(NoMatchPrompt(messages, prefs));
    }
    reply := [Message(Assistant, msg)];
  }
}
