# Next departures at a Toulouse stop — a Dafny model of `tisseo.py`

`tisseo.py` is the client side of a voice skill that answers "when is the next
bus at my stop?". It finds the stop in the network's stop directory by name,
fetches the next departures for that stop, and narrows the list down:

- first to one line, if the caller asked for one;
- then to one destination;
- then to the first departure of each line/destination pair.

Each departure also carries a French text saying how long is left before it
("2 heures et 15 minutes", "moins d'une minute").

This project models that list and string logic and proves what it does:

- `wrappers.dfy`: `Option` and `Result`. A filter parameter is an
  `Option<string>`: Python's `None` is `None`, and the literal string `"None"`
  is treated the same way, as in the code.
- `sequences.dfy`: order-preserving sub-sequences (`IsSubseq`) and a generic
  `Filter`, with lemmas on membership, multiplicity, order and the first
  element kept. The stop lookup and both passage filters are instances of it.
- `text.dfy`: lower-casing, hyphen-to-space replacement, and the decimal
  rendering of a natural number with its inverse.
- `delay.dfy`: `_timedelta_to_str`. A `timedelta` is the normalised pair
  (days, seconds) with `0 <= seconds < 86400`.
- `stops.dfy`: `get_stop_area_by_name`. It is a method with a loop, proved
  equal to `MatchingStops`.
- `passages.dfy`: `Passage`, its key `"{ligne} : {destination}"`, the two
  filter methods and `_filter_passages`. The key-based deduplication loop is
  inside `_filter_passages`, as in the code. Each method is proved equal to a
  specification function, and the lemmas are proved about those functions.
- `next_passages.dfy`: `prochains_passages`. The HTTP fetch, the parsing of
  its JSON and the clock are one function parameter, `fetch`. It maps a stop
  area id to the list of passages built from the answer.

These worked examples are proved as lemmas:

- Looking up `"capitole"` in a directory holding `"Capitole"` returns that entry.
- `"Saint Cyprien"` matches `"Saint-Cyprien"`.
- L6/Ramonville, 109/Labège, L6/Ramonville, L6/Castanet deduplicates to
  L6/Ramonville, 109/Labège, L6/Castanet.
- The delay texts "2 heures et 15 minutes", "moins d'une minute" and "3 jours".

Two points where the code's behaviour is not the obvious reading:

- A known stop with an empty schedule should give an empty list of passages.
  The code raises instead, because the list it returns is never assigned on
  that path. `NextPassages.NextPassagesAsWritten` follows the code and fails
  with `UnboundResult` there. The method `NextPassages.ProchainsPassages` and
  its specification `NextPassagesSpec` give the empty list. See "## Findings".
- "No filter" is not only an absent parameter: the code also compares with
  the exact string `"None"`, and so does the model.

## Model

| member | source | states |
|---|---|---|
| `Stops.GetStopAreaByName` | tisseo.py:48-53 | the loop returns exactly `MatchingStops(directory, name)`: the directory entries whose lower-cased name equals the lower-cased query, in directory order |
| `Stops.MatchingStopsExact` | tisseo.py:48-53 | an entry is in the result iff it is in the directory and its name matches; each matching entry occurs as often as in the directory, a non-matching one never; the result is a sub-sequence of the directory |
| `Stops.MatchingStopsEmpty` | tisseo.py:48-53 | the result is empty iff no directory entry matches |
| `Stops.MatchingStopsFirst` | tisseo.py:50-52 | the first element of the result is the first matching entry in directory order |
| `Stops.CaseInsensitiveExample` | tisseo.py:51 | the query "capitole" matches the entry named "Capitole" |
| `Text.Lower` | tisseo.py:51 | `.lower()` on ASCII: same length, no capital letter left, each capital becomes its small letter, every other character unchanged |
| `Text.HyphensToSpaces` | tisseo.py:165-166 | `.replace("-", " ")`: same length, no hyphen left, each hyphen becomes a space, every other character unchanged |
| `Text.NatToString` | tisseo.py:101 | `"{}".format(n)` of a natural number is non-empty, all decimal digits, and has no leading zero |
| `Text.NatToStringRoundTrip` | tisseo.py:101 | reading the digits back gives the number: the rendering loses nothing |
| `Text.NatToStringInjective` | tisseo.py:101 | different numbers give different texts |
| `Delay.Split` | tisseo.py:97-99 | the two `divmod`s give hours in 0..23, minutes in 0..59 and seconds in 0..59, with hours*3600 + minutes*60 + seconds equal to the input seconds |
| `Delay.SplitUnique` | tisseo.py:98-99 | any hours/minutes/seconds triple with those bounds and that sum is the one `Split` returns |
| `Delay.TimedeltaToStrCases` | tisseo.py:100-110 | in terms of the raw days and seconds: days > 0 gives exactly "{days} jours"; otherwise at least an hour gives "{h} heures", plus " et {m} minutes" only when the minutes are non-zero; under a minute gives "moins d'une minute"; otherwise "{m} minutes" |
| `Delay.TimedeltaToStr` | tisseo.py:96-110 | the text is the rendering of `ReadingOf(t)`, a reading taken straight from the raw days and seconds: whole days when days > 0, else hours and minutes when seconds >= 3600, else "less than a minute" under 60 seconds, else minutes |
| `Delay.RenderInjective` | tisseo.py:100-110 | different readings never give the same text |
| `Delay.SameTextIffSameReading` | tisseo.py:97-110 | two durations get the same text if and only if they have the same reading: the text loses nothing of what it shows |
| `Delay.SecondsNotShown` | tisseo.py:97-110 | two durations with the same days and the same whole minutes get the same text: leftover seconds never show |
| `Delay.PastDaysNotShown` | tisseo.py:100 | when days <= 0, which includes past departures, only the seconds field decides the text |
| `Delay.PastDepartureExample` | tisseo.py:96-110 | a departure 400 seconds in the past, `timedelta(-1, 86000)`, reads "23 heures et 53 minutes" |
| `Delay.TimedeltaToStrExamples` | tisseo.py:100-110 | exact texts for 2 h 15, zero, 3 days 4 h 30, 1 h 0 min 59 s ("1 heures") and 7 min 30 s |
| `Passages.TimedeltaStr` | tisseo.py:32 | a passage's delay text is the rendering of the reading of its time left |
| `Passages.LigneDestination` | tisseo.py:33 | the key is the line, then " : ", then the destination |
| `Passages.LigneDestinationCollision` | tisseo.py:33 | the key is a plain string: the pairs ("A : B", "C") and ("A", "B : C") share one key |
| `Passages.FilterPassagesForOneLine` | tisseo.py:147-157 | the loop returns exactly `LineFiltered(ps, line)`: the input itself when the filter is off, the line's passages otherwise |
| `Passages.LineFilteredExact` | tisseo.py:147-157 | with the filter off (`None` or `"None"`) the input comes back unchanged; otherwise a passage is kept iff its lower-cased line equals the lower-cased filter, as often as it occurs; always a sub-sequence of the input |
| `Passages.FilterPassagesForADestination` | tisseo.py:160-172 | the loop returns exactly `DestinationFiltered(ps, destination)` |
| `Passages.DestinationFilteredExact` | tisseo.py:160-172 | the same as for the line filter, comparing lower-cased destinations with hyphens read as spaces |
| `Passages.DestinationHyphenExample` | tisseo.py:165-166 | "Saint Cyprien" and "saint cyprien" both match the destination "Saint-Cyprien" |
| `Passages.Deduplicated` | tisseo.py:192-198 | the result is no longer than the input, and a non-empty input always keeps its first passage in first place |
| `Passages.DeduplicatedKeys` | tisseo.py:192-198 | deduplication drops no key of its input and adds none |
| `Passages.DeduplicatedUnique` | tisseo.py:192-198 | no two passages of the result share a key |
| `Passages.DeduplicatedIsSubseq` | tisseo.py:192-198 | the result is a sub-sequence of the input: relative order is preserved |
| `Passages.DeduplicatedKeepsFirst` | tisseo.py:194-197 | the first passage of every key is in the result |
| `Passages.DeduplicatedFirstOccurrence` | tisseo.py:194-197 | the passage kept for a key is the first passage of the input with that key |
| `Passages.DeduplicatedIsFirstOccurrences` | tisseo.py:192-198 | the result is exactly the passages at the positions that are the first of their key, in input order; this fixes which copy is kept and the order, even when equal passages repeat |
| `Passages.DeduplicatedOfUnique` | tisseo.py:192-198 | a list without repeated keys is returned unchanged |
| `Passages.DeduplicatedIdempotent` | tisseo.py:192-198 | deduplicating twice is deduplicating once |
| `Passages.DeduplicatedRepeatInFour` | tisseo.py:192-198 | for four passages where only the third repeats a key (the first's), the result is the first, second and fourth |
| `Passages.DeduplicatedExample` | tisseo.py:188-191 | L6/Ramonville, 109/Labège, L6/Ramonville, L6/Castanet becomes L6/Ramonville, 109/Labège, L6/Castanet |
| `Passages.FilterPassages` | tisseo.py:175-198 | the line filter, the destination filter and the deduplication loop return exactly `Filtered(ps, line, destination)` |
| `Passages.FilteredSound` | tisseo.py:175-198 | the result is a sub-sequence of the input, every passage in it passes both active filters, and its keys are pairwise distinct |
| `Passages.FilteredComplete` | tisseo.py:175-198 | the key of every input passage that passes both active filters is in the result |
| `Passages.FilteredIdempotent` | tisseo.py:175-198 | filtering the result again with the same line and destination gives the same list |
| `NextPassages.NextPassagesAsWritten` | tisseo.py:113-144 | the entry point as the code runs it: `UnknownStop` iff no stop matches; `UnboundResult` iff a stop matches and its fetched list is empty; otherwise the filtered departures of the first matching stop |
| `NextPassages.ProchainsPassages` | tisseo.py:113-144 | the entry point, as intended: an unknown stop gives `UnknownStop`; otherwise the departures of the first matching stop, filtered |
| `NextPassages.UnknownStopFailsFirst` | tisseo.py:116-118 | the entry point fails with `UnknownStop` iff no directory entry matches, and then its outcome does not depend on the fetch |
| `NextPassages.FirstMatchingStopUsed` | tisseo.py:119-125 | when several stops match, the departures of the first one in directory order are used |
| `NextPassages.EmptyDeparturesAsWritten` | tisseo.py:127-144 | for a known stop with no departure, the code as written fails while the intended entry point returns the empty list; with departures the two agree |
| `NextPassages.EmptyDeparturesExample` | tisseo.py:127-144 | the stop "Capitole" with nothing scheduled: `UnboundResult` as written, `Ok([])` as intended |

## Left out

- The HTTP request `get_prochains_passages_for_stop_area_id` and its JSON decoding are I/O. They become the `fetch` parameter, which cannot fail, so the `ConnectionError` on a status other than 200 is not modelled.
- The `_get` helper is dead code. It refers to an attribute that does not exist.
- Reading the API key from the environment and loading `stop_areas.json` happen at process start-up. The directory is a given sequence of `StopArea` records.
- `_str_datetime_to_datetime_obj` is left out: it relies on `strptime` and on time-zone localisation by a library. `Passage.date` stays the raw string, so the `TypeError` for a badly formatted date is not modelled.
- `_get_timedelta` reads the wall clock. A `Passage` carries its time left as a given `TimeDelta`.
- The microseconds of a `timedelta` are not modelled. `_timedelta_to_str` never reads them.
- `fetch`: takes only the stop area id. The code also sends a result limit (15, tisseo.py:125) and can send an optional `from_date` (tisseo.py:56-61). The model accepts any list the fetch returns, of any length and from any start time, so it is more general here.
- The loop building one `Passage` per raw departure (tisseo.py:132-137) is JSON access. It is folded into `fetch`.
- The warning printed when several stops match (tisseo.py:119-120) is output only. The choice of the first stop is modelled.
- `Lower`: lower-cases ASCII letters only. Python's `str.lower()` also lower-cases other Unicode letters, such as "É", and one of its mappings, "İ" (U+0130), changes the string's length. Names differing only in such letters are equal for the code but not for the model.
- `Passage.__str__` is display text only.

## Findings

| source | as written | input that shows it | evidently intended | confidence | as-written member | corrected member |
|---|---|---|---|---|---|---|
| tisseo.py:127-128, tisseo.py:144 | when the fetch returns no departure, only `p` is assigned, and `return liste_prochains_passages` reads a local variable that was never bound, so the call raises `UnboundLocalError` | a known stop (e.g. "Capitole") whose schedule is empty; `EmptyDeparturesExample` | return the empty list | high; not executed | `NextPassages.NextPassagesAsWritten` | `NextPassages.ProchainsPassages` |
