/** The entry point `prochains_passages`: resolve the stop name, fetch the
    departures of the first matching stop, then filter them. The network
    call, the parsing of its answer and the clock are one parameter,
    `fetch`, which maps a stop area id to the passages fetched for it. */
module NextPassages {
  import opened Wrappers
  import opened Sequences
  import opened Stops
  import opened Passages

  datatype Error =
    | UnknownStop(name: string)   // the KeyError "Arrêt {} inconnu"
    | UnboundResult               // the return reads a variable that was never assigned

  /** The entry point as written: with no departure fetched, the list it
      returns is never bound, so the call fails. */
  function NextPassagesAsWritten(directory: seq<StopArea>, name: string,
                                 fetch: string -> seq<Passage>,
                                 destination: Option<string>, line: Option<string>)
    : (r: Result<seq<Passage>, Error>)
    ensures r == Err(UnknownStop(name)) <==> MatchingStops(directory, name) == []
    ensures r == Err(UnboundResult) <==>
      MatchingStops(directory, name) != [] && fetch(MatchingStops(directory, name)[0].id) == []
    ensures r.Ok? ==>
      MatchingStops(directory, name) != [] &&
      r.value == Filtered(fetch(MatchingStops(directory, name)[0].id), line, destination)
  {
    var stops := MatchingStops(directory, name);
    if |stops| < 1 then Err(UnknownStop(name))
    else
      var departures := fetch(stops[0].id);
      if |departures| < 1 then Err(UnboundResult)
      else Ok(Filtered(departures, line, destination))
  }

  /** The entry point as intended: no departure gives no passage. */
  function NextPassagesSpec(directory: seq<StopArea>, name: string,
                            fetch: string -> seq<Passage>,
                            destination: Option<string>, line: Option<string>)
    : Result<seq<Passage>, Error>
  {
    var stops := MatchingStops(directory, name);
    if |stops| < 1 then Err(UnknownStop(name))
    else Ok(Filtered(fetch(stops[0].id), line, destination))
  }

  method ProchainsPassages(directory: seq<StopArea>, name: string,
                           fetch: string -> seq<Passage>,
                           destination: Option<string>, line: Option<string>)
    returns (r: Result<seq<Passage>, Error>)
    ensures r == NextPassagesSpec(directory, name, fetch, destination, line)
  {
    var stopAreas := GetStopAreaByName(directory, name);
    if |stopAreas| < 1 {
      return Err(UnknownStop(name));
    }
    var departures := fetch(stopAreas[0].id);
    var passages := FilterPassages(departures, line, destination);
    r := Ok(passages);
  }

  /** An unknown stop fails before anything is fetched: the outcome does not
      depend on `fetch`. */
  lemma UnknownStopFailsFirst(directory: seq<StopArea>, name: string,
                              fetch: string -> seq<Passage>, other: string -> seq<Passage>,
                              destination: Option<string>, line: Option<string>)
    ensures NextPassagesSpec(directory, name, fetch, destination, line) == Err(UnknownStop(name))
        <==> forall j :: 0 <= j < |directory| ==> !NameMatches(directory[j], name)
    ensures (forall j :: 0 <= j < |directory| ==> !NameMatches(directory[j], name)) ==>
        NextPassagesSpec(directory, name, fetch, destination, line)
        == NextPassagesSpec(directory, name, other, destination, line)
  {
    MatchingStopsEmpty(directory, name);
  }

  /** When several stops match, the first one in directory order is used. */
  lemma FirstMatchingStopUsed(directory: seq<StopArea>, name: string, i: nat,
                              fetch: string -> seq<Passage>,
                              destination: Option<string>, line: Option<string>)
    requires i < |directory| && NameMatches(directory[i], name)
    requires forall j :: 0 <= j < i ==> !NameMatches(directory[j], name)
    ensures NextPassagesSpec(directory, name, fetch, destination, line)
         == Ok(Filtered(fetch(directory[i].id), line, destination))
  {
    MatchingStopsFirst(directory, name, i);
  }

  /** The code as written and as intended differ on one input only: a known
      stop with no departure. */
  lemma EmptyDeparturesAsWritten(directory: seq<StopArea>, name: string,
                                 fetch: string -> seq<Passage>,
                                 destination: Option<string>, line: Option<string>)
    requires MatchingStops(directory, name) != []
    ensures fetch(MatchingStops(directory, name)[0].id) == [] ==>
      NextPassagesAsWritten(directory, name, fetch, destination, line) == Err(UnboundResult) &&
      NextPassagesSpec(directory, name, fetch, destination, line) == Ok([])
    ensures fetch(MatchingStops(directory, name)[0].id) != [] ==>
      NextPassagesAsWritten(directory, name, fetch, destination, line)
      == NextPassagesSpec(directory, name, fetch, destination, line)
  {
  }

  /** A concrete instance: the stop "Capitole" with nothing scheduled. */
  lemma EmptyDeparturesExample()
    ensures NextPassagesAsWritten([StopArea("Capitole", "SA_1")], "capitole",
                                  id => [], None, None) == Err(UnboundResult)
    ensures NextPassagesSpec([StopArea("Capitole", "SA_1")], "capitole",
                             id => [], None, None) == Ok([])
  {
    CaseInsensitiveExample();
    MatchingStopsFirst([StopArea("Capitole", "SA_1")], "capitole", 0);
  }
}
