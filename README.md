# Travel recommendation router, modelled in Dafny

This project models the deterministic core of a small travel-recommendation
chat (`my_repo/travel_recommendation/travel_recommendation.py`). A
conversation's state is a transcript of messages and an ordered list of
preferences. Each turn works like this:

- A keyword **router** reads the lower-cased last message and picks the next
  node. In the graph it is the conditional edge out of `llm_node`, so the
  message it reads is the one in the transcript after `llm_node`'s update.
  The checks run in a fixed priority order: "i like", then "weather", then
  "recommend" or "places". With none of them the conversation ends.
- On "i like", the router also records the stripped text after the last
  "i like" as a preference.
- The **weather node** uses the last word of the lower-cased message as the
  city. It answers from a fixed template.
- The **places node** finds the first known country in the lower-cased
  message, with "india" checked before "france". It answers from a fixed
  catalog. With no country it hands a prompt to the language model. That
  prompt includes the preference summary: the preferences joined by ", ",
  or "none".

Two modules:

- `pystr.dfy`, module `PyStr`: the Python `str` built-ins the program
  relies on. They are `lower()`, `in`, `split(sep)[-1]`, `strip()`,
  `split()` and `sep.join(...)`. Each computes the same result as CPython
  on ASCII text. The lemmas here prove two things, among others:
  - `split("i like")[-1]` is the text after the last occurrence of the
    phrase.
  - `split()[-1]` is the unique last whitespace-delimited word.
- `travel.dfy`, module `Travel`:
  - the two tools, `retrieve_places` and `weather_info`;
  - the preference summary;
  - the router's decision, as a function;
  - the state object `TravelState`, whose `Router` method returns the
    next node's name and changes only `preferences`;
  - the weather node;
  - the places node and its country scan.

The language model is a parameter of the places node (`respond`), so the
model states exactly which prompt it receives.

One expectation the code does not meet: the lookup is case-insensitive, so
one might expect `retrieve_places("INDIA")` and `retrieve_places("india")`
to return the same text. They do not. The heading repeats the argument as
given, so only the city lists agree. The model follows the code
(`Travel.RetrievePlacesEchoesArgument`).

## Model

| member | source | states |
|---|---|---|
| `PyStr.Lower` | my_repo/travel_recommendation/travel_recommendation.py:25 | `str.lower()` on ASCII keeps the length of the text |
| `PyStr.LowerAt` | my_repo/travel_recommendation/travel_recommendation.py:25 | lower-casing works character by character: each ASCII capital becomes its small letter in place, and every other character is unchanged |
| `PyStr.LowerIdempotent` | my_repo/travel_recommendation/travel_recommendation.py:13 | lower-casing already lower-cased text changes nothing, so `retrieve_places` looks a lower-case country up under its own name |
| `PyStr.FindFrom` | my_repo/travel_recommendation/travel_recommendation.py:28 | the substring scan behind `in`, from a start index; it has no ensures, and its meaning is in `FindFromLeftmost` |
| `PyStr.FindFromLeftmost` | my_repo/travel_recommendation/travel_recommendation.py:28 | the scan behind `in` returns the leftmost occurrence at or after the start index; if it finds none, no occurrence exists from there on |
| `PyStr.Contains` | my_repo/travel_recommendation/travel_recommendation.py:28 | `kw in text`, used on lines 28, 33, 36 and 65; it has no ensures, and its meaning is in `ContainsIff` |
| `PyStr.ContainsIff` | my_repo/travel_recommendation/travel_recommendation.py:28 | `kw in text` holds exactly when some index of `text` starts an occurrence of `kw` |
| `PyStr.LastPieceStart` | my_repo/travel_recommendation/travel_recommendation.py:29 | the cut where the last piece of `s.split(sep)` begins lies within the text, at or after where scanning started |
| `PyStr.LastPieceStartSpec` | my_repo/travel_recommendation/travel_recommendation.py:29 | no occurrence of `sep` starts at or after that cut; the cut is the scan start when `sep` does not occur, and otherwise an occurrence of `sep` ends exactly at the cut |
| `PyStr.SplitLast` | my_repo/travel_recommendation/travel_recommendation.py:29 | `s.split(sep)[-1]`, the text from the last cut on; it has no ensures, and its meaning is in `SplitLastPiece` and `SplitLastAfterLastOccurrence` |
| `PyStr.SplitLastPiece` | my_repo/travel_recommendation/travel_recommendation.py:29 | `s.split(sep)[-1]` holds no `sep`; when `s` holds `sep`, an occurrence ends right where the piece begins; otherwise the piece is all of `s` |
| `PyStr.SplitLastAfterLastOccurrence` | my_repo/travel_recommendation/travel_recommendation.py:29 | for a separator whose occurrences cannot overlap, `s.split(sep)[-1]` is exactly the text after the last occurrence |
| `PyStr.SkipSpace` | my_repo/travel_recommendation/travel_recommendation.py:29 | the left scan of `strip()` passes only whitespace and stops at the end or at the first non-whitespace character |
| `PyStr.SkipSpaceBack` | my_repo/travel_recommendation/travel_recommendation.py:29 | the right scan of `strip()` passes only whitespace, never crosses the left cut, and stops at the cut or after a non-whitespace character |
| `PyStr.Strip` | my_repo/travel_recommendation/travel_recommendation.py:29 | `strip()` returns the slice of its input that has only whitespace before and after it and no whitespace at either end; it is empty exactly when the input is all whitespace |
| `PyStr.StripKeepsAbsent` | my_repo/travel_recommendation/travel_recommendation.py:29 | stripping cannot create an occurrence of a phrase that was absent |
| `PyStr.WordEnd` | my_repo/travel_recommendation/travel_recommendation.py:57 | a word that `split()` starts at an index runs over non-whitespace only and ends at the end of the text or at whitespace |
| `PyStr.SplitFrom` | my_repo/travel_recommendation/travel_recommendation.py:57 | the words of the text from an index on, found by skipping whitespace and taking runs of non-whitespace; it has no ensures, and its meaning is in `SplitFromWords` and `SplitLastWord` |
| `PyStr.Split` | my_repo/travel_recommendation/travel_recommendation.py:57 | `text.split()`; it has no ensures, and its meaning is in `SplitBlank`, `SplitFromWords` and `SplitLastWord` |
| `PyStr.SplitBlank` | my_repo/travel_recommendation/travel_recommendation.py:57 | `split()` yields no word exactly when the text is all whitespace, which is when `[-1]` raises IndexError |
| `PyStr.SplitFromWords` | my_repo/travel_recommendation/travel_recommendation.py:57 | `split()` yields only non-empty, whitespace-free words |
| `PyStr.SplitLastWord` | my_repo/travel_recommendation/travel_recommendation.py:57 | `text.split()[-1]` is the last word: whitespace or the start of the text before it, whitespace only after it |
| `PyStr.LastWordUnique` | my_repo/travel_recommendation/travel_recommendation.py:57 | a text has only one last word, so the weather node's city is fully determined |
| `PyStr.Join` | my_repo/travel_recommendation/travel_recommendation.py:46 | `sep.join(xs)`, also used on lines 13 and 72; it has no ensures, and its meaning is in `JoinEmptyIff` and `JoinSnoc` |
| `PyStr.JoinEmptyIff` | my_repo/travel_recommendation/travel_recommendation.py:46 | `", ".join(xs)` is empty exactly for `[]` and `[""]` |
| `PyStr.JoinSnoc` | my_repo/travel_recommendation/travel_recommendation.py:46 | joining a list with one more element appends the separator and that element |
| `Travel.LastText` | my_repo/travel_recommendation/travel_recommendation.py:25 | `state["messages"][-1].content.lower()`, also read on lines 55 and 61; it has no ensures, and what follows from it is in `Lower` and `LowerAt` |
| `Travel.CatalogGet` | my_repo/travel_recommendation/travel_recommendation.py:9-13 | `catalog.get(country.lower(), ['No data'])`; it has no ensures, and its meaning is in `RetrievePlacesKnown` and `RetrievePlacesUnknown` |
| `Travel.RetrievePlaces` | my_repo/travel_recommendation/travel_recommendation.py:8-13 | the reply starts with "Top places in ", the country as given and ": "; the rest is the catalog entry for the lower-cased country, or `['No data']`, joined by ", "; it never fails |
| `Travel.RetrievePlacesIgnoresCase` | my_repo/travel_recommendation/travel_recommendation.py:13 | two spellings of a country that lower-case alike get the same city listing |
| `Travel.RetrievePlacesLowered` | my_repo/travel_recommendation/travel_recommendation.py:13 | looking up the lower-cased name lists the same cities as looking up the name as given |
| `Travel.RetrievePlacesKnown` | my_repo/travel_recommendation/travel_recommendation.py:9-13 | every spelling of India lists Goa, Manali, Jaipur; every spelling of France lists Paris, Nice, Lyon |
| `Travel.RetrievePlacesEchoesArgument` | my_repo/travel_recommendation/travel_recommendation.py:13 | "INDIA" and "india" get the same cities but different replies, because the heading repeats the argument |
| `Travel.RetrievePlacesUnknown` | my_repo/travel_recommendation/travel_recommendation.py:13 | a country outside the catalog, in any spelling, gets its heading followed by "No data" |
| `Travel.RetrievePlacesGermany` | my_repo/travel_recommendation/travel_recommendation.py:13 | "Germany" gets "Top places in Germany: No data" |
| `Travel.WeatherInfo` | my_repo/travel_recommendation/travel_recommendation.py:15-16 | the report is "The weather in ", then the city verbatim, then " is sunny 28°C (dummy).", for every input |
| `Travel.WeatherInfoInjective` | my_repo/travel_recommendation/travel_recommendation.py:15-16 | different cities never get the same report, so the city can be read back from it |
| `Travel.PreferenceSummary` | my_repo/travel_recommendation/travel_recommendation.py:46 | the summary is never empty; it is "none" for `[]` and for `[""]`, and the ", "-join otherwise |
| `Travel.SummaryAfterRecord` | my_repo/travel_recommendation/travel_recommendation.py:46 | once the summary is a real join, recording a preference `p` extends it by ", " and `p` |
| `Travel.ILikeSelfOverlapFree` | my_repo/travel_recommendation/travel_recommendation.py:29 | two occurrences of "i like" can never overlap |
| `Travel.ExtractPreference` | my_repo/travel_recommendation/travel_recommendation.py:29 | the recorded preference has no whitespace at either end and never contains "i like" |
| `Travel.PreferenceAfterLastILike` | my_repo/travel_recommendation/travel_recommendation.py:28-29 | the recorded preference is the stripped text after the last occurrence of "i like" |
| `Travel.Route` | my_repo/travel_recommendation/travel_recommendation.py:24-40 | the decision is "llm_node" exactly when "i like" occurs, "weather_node" exactly when "weather" occurs and "i like" does not, "places_node" exactly when "recommend" or "places" occurs and neither earlier keyword does, and "end" exactly when none of the four occurs |
| `Travel.TravelState.constructor` | my_repo/travel_recommendation/travel_recommendation.py:19-21 | a new state holds the given transcript and an empty preference list |
| `Travel.TravelState.Router` | my_repo/travel_recommendation/travel_recommendation.py:24-40 | returns the name of the node that `Route` picks on the lower-cased last message ("llm_node", "weather_node", "places_node" or "end"); when that is the language-model node, it appends exactly one preference, the extracted one; in every other branch the preferences are unchanged; the transcript never changes |
| `Travel.WeatherNode` | my_repo/travel_recommendation/travel_recommendation.py:54-58 | fails with IndexError exactly when the lower-cased last message is blank; otherwise returns one assistant message, the weather report for the last word of that text |
| `Travel.WeatherRouteHasCity` | my_repo/travel_recommendation/travel_recommendation.py:33-58 | whenever the router chooses the weather node, that node finds a city and does not fail |
| `Travel.FirstMatch` | my_repo/travel_recommendation/travel_recommendation.py:62-67 | the country scan returns the first candidate that occurs in the text, after no earlier candidate occurs; it returns None only when no candidate occurs |
| `Travel.NoMatchPrompt` | my_repo/travel_recommendation/travel_recommendation.py:72-76 | the prompt handed to the language model: the last message as received, then an assistant message with the no-match annotation and the preference summary; it has no ensures, and `PlacesNode` pins the reply to it |
| `Travel.PlacesNode` | my_repo/travel_recommendation/travel_recommendation.py:60-77 | returns exactly one assistant message. It is India's places whenever "india" occurs, France's places when only "france" occurs, and otherwise the responder's answer to the last message plus the no-match annotation with the preference summary |

## Left out

- `llm_node` is left out by choice, apart from its preference summary, which is modelled as `PreferenceSummary`. The node's prompt and its one-message return are deterministic, but they wrap only an `llm.invoke` call.
- Every `llm.invoke` call is left out, because it is a network call to a language model with no statable output. The places node takes the model as a parameter `respond`.
- The LangGraph wiring is left out, because the graph library executes it. This covers the nodes, the conditional edges, `END` and the `llm_node → llm_node` self-edge. That edge would run `llm_node` again and then the router on its new reply. Because the router is `llm_node`'s conditional edge, it always reads the transcript after `llm_node`'s update.
- How the graph library applies a node's returned `{"messages": [...]}` update to the state is left out. `messages` is declared without a reducer, so the library's default would overwrite the transcript. The nodes here return the one-message list, as the source does.
- `MemorySaver` checkpointing is left out, because persistence belongs to an external library.
- LangChain's message classes are reduced to a role and a content string.
- `PyStr.Lower`, `PyStr.Strip` and `PyStr.Split` model ASCII only, because full Unicode case mapping and whitespace tables are beyond this model:
  - Python lower-cases non-ASCII letters too, and a few of them grow, such as "İ".
  - Python also treats non-ASCII spaces such as U+00A0 and U+2028 as whitespace.
  - Here non-ASCII characters are left unchanged and count as non-whitespace.
- An empty transcript is not modelled: indexing `[-1]` into it raises IndexError in every node and in the router. The graph always starts a turn with an inbound message, so the model requires `messages != []` instead.
- `Travel.PlacesNode` checks `country.Some?` where the source tests the truthiness of `country`. The two agree because both candidate countries are non-empty strings.
