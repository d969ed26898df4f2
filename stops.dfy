/** The stop directory and the lookup of a stop area by name
    (`get_stop_area_by_name`). The directory is the list of stop areas read
    once at startup; here it is a given, immutable sequence. */
module Stops {
  import opened Sequences
  import opened Text

  datatype StopArea = StopArea(name: string, id: string)

  /** Names are compared after lower-casing both sides. */
  predicate NameMatches(stop: StopArea, name: string)
  {
    Lower(stop.name) == Lower(name)
  }

  function NameFilter(name: string): StopArea -> bool
  {
    stop => NameMatches(stop, name)
  }

  /** The directory entries whose name matches, in directory order. */
  function MatchingStops(directory: seq<StopArea>, name: string): seq<StopArea>
  {
    Filter(directory, NameFilter(name))
  }

  method GetStopAreaByName(directory: seq<StopArea>, name: string) returns (stopAreas: seq<StopArea>)
    ensures stopAreas == MatchingStops(directory, name)
  {
    stopAreas := [];
    for i := 0 to |directory|
      invariant stopAreas == Filter(directory[..i], NameFilter(name))
    {
      InitLastOfPrefix(directory, i);
      if Lower(directory[i].name) == Lower(name) {
        stopAreas := stopAreas + [directory[i]];
      }
    }
    assert directory[..|directory|] == directory;
  }

  /** The lookup keeps exactly the matching entries, each as often as it
      occurs in the directory, in directory order. */
  lemma MatchingStopsExact(directory: seq<StopArea>, name: string)
    ensures forall stop ::
              stop in MatchingStops(directory, name) <==> stop in directory && NameMatches(stop, name)
    ensures forall stop ::
              multiset(MatchingStops(directory, name))[stop] ==
              if NameMatches(stop, name) then multiset(directory)[stop] else 0
    ensures IsSubseq(MatchingStops(directory, name), directory)
  {
    forall stop
      ensures stop in MatchingStops(directory, name) <==> stop in directory && NameMatches(stop, name)
      ensures multiset(MatchingStops(directory, name))[stop] ==
        (if NameMatches(stop, name) then multiset(directory)[stop] else 0)
    {
      FilterMembership(directory, NameFilter(name), stop);
      FilterMultiplicity(directory, NameFilter(name), stop);
    }
    FilterIsSubseq(directory, NameFilter(name));
  }

  /** When an entry matches, the first entry of the result is the first
      matching entry of the directory. */
  lemma MatchingStopsFirst(directory: seq<StopArea>, name: string, i: nat)
    requires i < |directory| && NameMatches(directory[i], name)
    requires forall j :: 0 <= j < i ==> !NameMatches(directory[j], name)
    ensures |MatchingStops(directory, name)| > 0
    ensures MatchingStops(directory, name)[0] == directory[i]
  {
    FilterHead(directory, NameFilter(name), i);
  }

  /** No match at all gives the empty result. */
  lemma MatchingStopsEmpty(directory: seq<StopArea>, name: string)
    ensures MatchingStops(directory, name) == [] <==>
      forall j :: 0 <= j < |directory| ==> !NameMatches(directory[j], name)
  {
    if MatchingStops(directory, name) != [] {
      FilterMembership(directory, NameFilter(name), MatchingStops(directory, name)[0]);
    }
    forall j | 0 <= j < |directory| && NameMatches(directory[j], name)
      ensures MatchingStops(directory, name) != []
    {
      FilterMembership(directory, NameFilter(name), directory[j]);
    }
  }

  lemma CaseInsensitiveExample()
    ensures NameMatches(StopArea("Capitole", "stop_area:SA_1"), "capitole")
    ensures MatchingStops([StopArea("Capitole", "stop_area:SA_1")], "capitole")
         == [StopArea("Capitole", "stop_area:SA_1")]
  {
    assert Lower("Capitole") == "capitole";
    var directory := [StopArea("Capitole", "stop_area:SA_1")];
    assert Init(directory) == [];
  }
}
