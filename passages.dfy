/** Departures at a stop (`Passage`), the optional filters on line and
    destination, and the removal of repeated line/destination pairs
    (`_filter_passages_for_one_line`, `_filter_passages_for_a_destination`,
    `_filter_passages`). */
module Passages {
  import opened Wrappers
  import opened Sequences
  import opened Text
  import opened Delay

  /** A departure as built from one record of the schedule: the raw date
      string, the line's short name, the destination name and the time left,
      which the client reads off the clock and which is a given here. */
  datatype Passage = Passage(date: string, ligne: string, destination: string, timedelta: TimeDelta)

  /** The text that says when the vehicle comes (`timedelta_str`): the
      rendering of what its time left reads as. */
  function TimedeltaStr(p: Passage): (r: string)
    ensures r == Render(ReadingOf(p.timedelta))
  {
    TimedeltaToStr(p.timedelta)
  }

  /** The deduplication key `"{ligne} : {destination}"`. */
  function LigneDestination(p: Passage): (key: string)
    ensures |key| == |p.ligne| + 3 + |p.destination|
    ensures key[..|p.ligne|] == p.ligne
    ensures key[|p.ligne|..|p.ligne| + 3] == " : "
    ensures key[|p.ligne| + 3..] == p.destination
  {
    p.ligne + " : " + p.destination
  }

  /** Passages with the same line and destination share their key. The key
      is a plain string, so a line name that itself contains `" : "` can
      make two different pairs share one key too. */
  lemma LigneDestinationCollision()
    ensures LigneDestination(Passage("", "A : B", "C", Duration(0, 0)))
         == LigneDestination(Passage("", "A", "B : C", Duration(0, 0)))
  {
  }

  function Keys(ps: seq<Passage>): seq<string>
  {
    seq(|ps|, i requires 0 <= i < |ps| => LigneDestination(ps[i]))
  }

  lemma KeysSnoc(ps: seq<Passage>, p: Passage)
    ensures Keys(ps + [p]) == Keys(ps) + [LigneDestination(p)]
  {
  }

  lemma KeysInit(ps: seq<Passage>)
    requires ps != []
    ensures Keys(ps) == Keys(Init(ps)) + [LigneDestination(Last(ps))]
  {
    assert ps == Init(ps) + [Last(ps)];
    KeysSnoc(Init(ps), Last(ps));
  }

  // ----- The two filters -----

  /** A filter parameter is in force unless it is absent or the string "None". */
  predicate IsActive(filter: Option<string>)
  {
    filter.Some? && filter.value != "None"
  }

  predicate LineMatches(p: Passage, line: string)
  {
    Lower(p.ligne) == Lower(line)
  }

  function LineFilter(line: string): Passage -> bool
  {
    p => LineMatches(p, line)
  }

  /** Destinations are compared lower-cased, with hyphens read as spaces. */
  function NormalizeDestination(s: string): string
  {
    HyphensToSpaces(Lower(s))
  }

  predicate DestinationMatches(p: Passage, destination: string)
  {
    NormalizeDestination(p.destination) == NormalizeDestination(destination)
  }

  function DestinationFilter(destination: string): Passage -> bool
  {
    p => DestinationMatches(p, destination)
  }

  function LineFiltered(ps: seq<Passage>, line: Option<string>): seq<Passage>
  {
    if IsActive(line) then Filter(ps, LineFilter(line.value)) else ps
  }

  function DestinationFiltered(ps: seq<Passage>, destination: Option<string>): seq<Passage>
  {
    if IsActive(destination) then Filter(ps, DestinationFilter(destination.value)) else ps
  }

  method FilterPassagesForOneLine(ps: seq<Passage>, line: Option<string>) returns (r: seq<Passage>)
    ensures r == LineFiltered(ps, line)
  {
    if IsActive(line) {
      r := [];
      for i := 0 to |ps|
        invariant r == Filter(ps[..i], LineFilter(line.value))
      {
        InitLastOfPrefix(ps, i);
        if Lower(ps[i].ligne) == Lower(line.value) {
          r := r + [ps[i]];
        }
      }
      assert ps[..|ps|] == ps;
    } else {
      r := ps;
    }
  }

  method FilterPassagesForADestination(ps: seq<Passage>, destination: Option<string>) returns (r: seq<Passage>)
    ensures r == DestinationFiltered(ps, destination)
  {
    if IsActive(destination) {
      r := [];
      for i := 0 to |ps|
        invariant r == Filter(ps[..i], DestinationFilter(destination.value))
      {
        InitLastOfPrefix(ps, i);
        if HyphensToSpaces(Lower(ps[i].destination)) == HyphensToSpaces(Lower(destination.value)) {
          r := r + [ps[i]];
        }
      }
      assert ps[..|ps|] == ps;
    } else {
      r := ps;
    }
  }

  /** An inactive line filter returns its input; an active one keeps exactly
      the passages of that line, as often as they occur, in order. */
  lemma LineFilteredExact(ps: seq<Passage>, line: Option<string>)
    ensures !IsActive(line) ==> LineFiltered(ps, line) == ps
    ensures forall p ::
              p in LineFiltered(ps, line) <==>
              p in ps && (IsActive(line) ==> LineMatches(p, line.value))
    ensures forall p ::
              multiset(LineFiltered(ps, line))[p] ==
              if IsActive(line) ==> LineMatches(p, line.value) then multiset(ps)[p] else 0
    ensures IsSubseq(LineFiltered(ps, line), ps)
  {
    if IsActive(line) {
      forall p
        ensures p in LineFiltered(ps, line) <==> p in ps && LineMatches(p, line.value)
        ensures multiset(LineFiltered(ps, line))[p] ==
          if LineMatches(p, line.value) then multiset(ps)[p] else 0
      {
        FilterMembership(ps, LineFilter(line.value), p);
        FilterMultiplicity(ps, LineFilter(line.value), p);
      }
      FilterIsSubseq(ps, LineFilter(line.value));
    } else {
      SubseqRefl(ps);
    }
  }

  /** The same for the destination filter. */
  lemma DestinationFilteredExact(ps: seq<Passage>, destination: Option<string>)
    ensures !IsActive(destination) ==> DestinationFiltered(ps, destination) == ps
    ensures forall p ::
              p in DestinationFiltered(ps, destination) <==>
              p in ps && (IsActive(destination) ==> DestinationMatches(p, destination.value))
    ensures forall p ::
              multiset(DestinationFiltered(ps, destination))[p] ==
              if IsActive(destination) ==> DestinationMatches(p, destination.value)
              then multiset(ps)[p] else 0
    ensures IsSubseq(DestinationFiltered(ps, destination), ps)
  {
    if IsActive(destination) {
      forall p
        ensures p in DestinationFiltered(ps, destination) <==>
          p in ps && DestinationMatches(p, destination.value)
        ensures multiset(DestinationFiltered(ps, destination))[p] ==
          if DestinationMatches(p, destination.value) then multiset(ps)[p] else 0
      {
        FilterMembership(ps, DestinationFilter(destination.value), p);
        FilterMultiplicity(ps, DestinationFilter(destination.value), p);
      }
      FilterIsSubseq(ps, DestinationFilter(destination.value));
    } else {
      SubseqRefl(ps);
    }
  }

  lemma DestinationHyphenExample()
    ensures DestinationMatches(Passage("", "L1", "Saint-Cyprien", Duration(0, 0)), "Saint Cyprien")
    ensures DestinationMatches(Passage("", "L1", "Saint-Cyprien", Duration(0, 0)), "saint cyprien")
  {
    assert NormalizeDestination("Saint-Cyprien") == "saint cyprien";
    assert NormalizeDestination("Saint Cyprien") == "saint cyprien";
    assert NormalizeDestination("saint cyprien") == "saint cyprien";
  }

  // ----- Deduplication -----

  /** The first occurrence of each key, in input order: a passage is kept
      when no passage kept before it has the same key. */
  function Deduplicated(ps: seq<Passage>): (r: seq<Passage>)
    ensures |r| <= |ps|
    ensures ps != [] ==> r != [] && r[0] == ps[0]
    decreases |ps|
  {
    if ps == [] then []
    else
      var d := Deduplicated(Init(ps));
      if LigneDestination(Last(ps)) in Keys(d) then d else d + [Last(ps)]
  }

  predicate UniqueKeys(ps: seq<Passage>)
  {
    forall i, j :: 0 <= i < j < |ps| ==> LigneDestination(ps[i]) != LigneDestination(ps[j])
  }

  /** `ps[i]` is the first passage of `ps` with its key. */
  predicate IsFirstOccurrence(ps: seq<Passage>, i: nat)
    requires i < |ps|
  {
    LigneDestination(ps[i]) !in Keys(ps[..i])
  }

  /** The passages of `ps` at the positions that are the first of their key,
      in input order: a reference definition that looks at positions in the
      input, not at what has been kept so far. */
  function FirstOccurrences(ps: seq<Passage>): seq<Passage>
    decreases |ps|
  {
    if ps == [] then []
    else FirstOccurrences(Init(ps)) + (if IsFirstOccurrence(ps, |ps| - 1) then [Last(ps)] else [])
  }

  /** Deduplication drops no key and adds none. */
  lemma {:induction false} DeduplicatedKeys(ps: seq<Passage>)
    ensures forall k :: k in Keys(Deduplicated(ps)) <==> k in Keys(ps)
    decreases |ps|
  {
    if ps != [] {
      DeduplicatedKeys(Init(ps));
      KeysInit(ps);
      KeysSnoc(Deduplicated(Init(ps)), Last(ps));
    }
  }

  lemma {:induction false} DeduplicatedUnique(ps: seq<Passage>)
    ensures UniqueKeys(Deduplicated(ps))
    decreases |ps|
  {
    if ps != [] {
      DeduplicatedUnique(Init(ps));
      var d := Deduplicated(Init(ps));
      if LigneDestination(Last(ps)) !in Keys(d) {
        forall i, j | 0 <= i < j < |d + [Last(ps)]|
          ensures LigneDestination((d + [Last(ps)])[i]) != LigneDestination((d + [Last(ps)])[j])
        {
          if j == |d| {
            assert Keys(d)[i] == LigneDestination(d[i]);
          }
        }
      }
    }
  }

  lemma {:induction false} DeduplicatedIsSubseq(ps: seq<Passage>)
    ensures IsSubseq(Deduplicated(ps), ps)
    decreases |ps|
  {
    if ps != [] {
      DeduplicatedIsSubseq(Init(ps));
      assert ps == Init(ps) + [Last(ps)];
      SubseqSnoc(Deduplicated(Init(ps)), Init(ps), Last(ps));
    }
  }

  /** The first passage of every key is kept. */
  lemma {:induction false} DeduplicatedKeepsFirst(ps: seq<Passage>)
    ensures forall i :: 0 <= i < |ps| && IsFirstOccurrence(ps, i) ==> ps[i] in Deduplicated(ps)
    decreases |ps|
  {
    if ps != [] {
      DeduplicatedKeepsFirst(Init(ps));
      DeduplicatedKeys(Init(ps));
      var n := |ps| - 1;
      forall i | 0 <= i < |ps| && IsFirstOccurrence(ps, i)
        ensures ps[i] in Deduplicated(ps)
      {
        if i < n {
          assert Init(ps)[..i] == ps[..i];
          assert Init(ps)[i] == ps[i];
        } else {
          assert ps[..i] == Init(ps);
        }
      }
    }
  }

  /** Whatever is kept for a key is the first passage with that key. */
  lemma DeduplicatedFirstOccurrence(ps: seq<Passage>)
    ensures forall p, i ::
              (p in Deduplicated(ps) && 0 <= i < |ps| && IsFirstOccurrence(ps, i) &&
               LigneDestination(p) == LigneDestination(ps[i])) ==> p == ps[i]
  {
    DeduplicatedKeepsFirst(ps);
    DeduplicatedUnique(ps);
    var d := Deduplicated(ps);
    forall p, i | p in d && 0 <= i < |ps| && IsFirstOccurrence(ps, i) &&
                  LigneDestination(p) == LigneDestination(ps[i])
      ensures p == ps[i]
    {
      var a :| 0 <= a < |d| && d[a] == p;
      var b :| 0 <= b < |d| && d[b] == ps[i];
      assert !(a < b) && !(b < a);
    }
  }

  /** Deduplication keeps exactly the passages at first-occurrence positions,
      in input order. */
  lemma {:induction false} DeduplicatedIsFirstOccurrences(ps: seq<Passage>)
    ensures Deduplicated(ps) == FirstOccurrences(ps)
    decreases |ps|
  {
    if ps != [] {
      DeduplicatedIsFirstOccurrences(Init(ps));
      DeduplicatedKeys(Init(ps));
      assert ps[..|ps| - 1] == Init(ps);
    }
  }

  /** A list without repeated keys is left as it is. */
  lemma {:induction false} DeduplicatedOfUnique(ps: seq<Passage>)
    requires UniqueKeys(ps)
    ensures Deduplicated(ps) == ps
    decreases |ps|
  {
    if ps != [] {
      assert UniqueKeys(Init(ps));
      DeduplicatedOfUnique(Init(ps));
      assert LigneDestination(Last(ps)) !in Keys(Init(ps));
      assert ps == Init(ps) + [Last(ps)];
    }
  }

  lemma DeduplicatedIdempotent(ps: seq<Passage>)
    ensures Deduplicated(Deduplicated(ps)) == Deduplicated(ps)
  {
    DeduplicatedUnique(ps);
    DeduplicatedOfUnique(Deduplicated(ps));
  }

  lemma DeduplicatedExample()
    ensures Deduplicated([
              Passage("2024-05-02 10:52:00", "L6", "Ramonville", Duration(0, 300)),
              Passage("2024-05-02 10:55:00", "109", "Labège", Duration(0, 480)),
              Passage("2024-05-02 11:15:00", "L6", "Ramonville", Duration(0, 1680)),
              Passage("2024-05-02 12:05:00", "L6", "Castanet", Duration(0, 4680))])
         == [Passage("2024-05-02 10:52:00", "L6", "Ramonville", Duration(0, 300)),
             Passage("2024-05-02 10:55:00", "109", "Labège", Duration(0, 480)),
             Passage("2024-05-02 12:05:00", "L6", "Castanet", Duration(0, 4680))]
  {
    var p1 := Passage("2024-05-02 10:52:00", "L6", "Ramonville", Duration(0, 300));
    var p2 := Passage("2024-05-02 10:55:00", "109", "Labège", Duration(0, 480));
    var p3 := Passage("2024-05-02 11:15:00", "L6", "Ramonville", Duration(0, 1680));
    var p4 := Passage("2024-05-02 12:05:00", "L6", "Castanet", Duration(0, 4680));
    assert LigneDestination(p1) == "L6 : Ramonville" == LigneDestination(p3);
    assert LigneDestination(p2) == "109 : Labège";
    assert LigneDestination(p4) == "L6 : Castanet";
    DeduplicatedRepeatInFour(p1, p2, p3, p4);
  }

  /** Four passages of which the third repeats the first's key. */
  lemma DeduplicatedRepeatInFour(p1: Passage, p2: Passage, p3: Passage, p4: Passage)
    requires LigneDestination(p3) == LigneDestination(p1) != LigneDestination(p2)
    requires LigneDestination(p4) != LigneDestination(p1)
    requires LigneDestination(p4) != LigneDestination(p2)
    ensures Deduplicated([p1, p2, p3, p4]) == [p1, p2, p4]
  {
    DeduplicatedFirstTwo(p1, p2);
    DeduplicatedSnoc([p1, p2], p3);
    KeysOfTwo(p1, p2);
    assert [p1, p2] + [p3] == [p1, p2, p3];
    DeduplicatedSnoc([p1, p2, p3], p4);
    assert [p1, p2, p3] + [p4] == [p1, p2, p3, p4];
  }

  lemma DeduplicatedFirstTwo(p1: Passage, p2: Passage)
    requires LigneDestination(p1) != LigneDestination(p2)
    ensures Deduplicated([p1, p2]) == [p1, p2]
  {
    DeduplicatedSnoc([], p1);
    assert [] + [p1] == [p1];
    DeduplicatedSnoc([p1], p2);
    assert Keys([p1]) == [LigneDestination(p1)];
    assert [p1] + [p2] == [p1, p2];
  }

  lemma KeysOfTwo(p1: Passage, p2: Passage)
    ensures Keys([p1, p2]) == [LigneDestination(p1), LigneDestination(p2)]
  {
  }

  lemma DeduplicatedSnoc(ps: seq<Passage>, p: Passage)
    ensures Deduplicated(ps + [p]) ==
      if LigneDestination(p) in Keys(Deduplicated(ps)) then Deduplicated(ps) else Deduplicated(ps) + [p]
  {
    InitLastOfSnoc(ps, p);
  }

  // ----- The whole filter -----

  /** Line filter, then destination filter, then deduplication. */
  function Filtered(ps: seq<Passage>, line: Option<string>, destination: Option<string>): seq<Passage>
  {
    Deduplicated(DestinationFiltered(LineFiltered(ps, line), destination))
  }

  /** A passage passes both filters that are in force. */
  predicate Selected(p: Passage, line: Option<string>, destination: Option<string>)
  {
    (IsActive(line) ==> LineMatches(p, line.value)) &&
    (IsActive(destination) ==> DestinationMatches(p, destination.value))
  }

  method FilterPassages(ps: seq<Passage>, line: Option<string>, destination: Option<string>)
    returns (r: seq<Passage>)
    ensures r == Filtered(ps, line, destination)
  {
    var byLine := FilterPassagesForOneLine(ps, line);
    var selected := FilterPassagesForADestination(byLine, destination);
    r := [];
    var covered: seq<string> := [];
    for i := 0 to |selected|
      invariant r == Deduplicated(selected[..i])
      invariant covered == Keys(r)
    {
      InitLastOfPrefix(selected, i);
      var p := selected[i];
      if LigneDestination(p) !in covered {
        KeysSnoc(r, p);
        r := r + [p];
        covered := covered + [LigneDestination(p)];
      }
    }
    assert selected[..|selected|] == selected;
  }

  /** The result is a sub-sequence of the input, every passage in it passes
      the filters, and no two of its passages share a key. */
  lemma FilteredSound(ps: seq<Passage>, line: Option<string>, destination: Option<string>)
    ensures IsSubseq(Filtered(ps, line, destination), ps)
    ensures forall p :: p in Filtered(ps, line, destination) ==> p in ps && Selected(p, line, destination)
    ensures UniqueKeys(Filtered(ps, line, destination))
  {
    var byLine := LineFiltered(ps, line);
    var selected := DestinationFiltered(byLine, destination);
    LineFilteredExact(ps, line);
    DestinationFilteredExact(byLine, destination);
    DeduplicatedIsSubseq(selected);
    SubseqTrans(Deduplicated(selected), selected, byLine);
    SubseqTrans(Deduplicated(selected), byLine, ps);
    forall p | p in Filtered(ps, line, destination)
      ensures p in selected
    {
      DeduplicatedMember(selected, p);
    }
    DeduplicatedUnique(selected);
  }

  /** A passage of a deduplicated list comes from the list. */
  lemma DeduplicatedMember(ps: seq<Passage>, p: Passage)
    requires p in Deduplicated(ps)
    ensures p in ps
  {
    DeduplicatedIsSubseq(ps);
    SubseqMembership(Deduplicated(ps), ps, p);
  }

  lemma {:induction false} SubseqMembership(a: seq<Passage>, b: seq<Passage>, x: Passage)
    requires IsSubseq(a, b) && x in a
    ensures x in b
    decreases |b|
  {
    assert a != [] && b != [];
    assert b == Init(b) + [Last(b)];
    if IsSubseq(a, Init(b)) {
      SubseqMembership(a, Init(b), x);
    } else if x != Last(a) {
      assert a == Init(a) + [Last(a)];
      SubseqMembership(Init(a), Init(b), x);
    }
  }

  /** Every line/destination pair of a passage that passes the filters is in
      the result. */
  lemma FilteredComplete(ps: seq<Passage>, line: Option<string>, destination: Option<string>)
    ensures forall i :: 0 <= i < |ps| && Selected(ps[i], line, destination) ==>
              LigneDestination(ps[i]) in Keys(Filtered(ps, line, destination))
  {
    forall i | 0 <= i < |ps| && Selected(ps[i], line, destination)
      ensures LigneDestination(ps[i]) in Keys(Filtered(ps, line, destination))
    {
      SelectedKeyKept(ps, line, destination, ps[i]);
    }
  }

  lemma SelectedKeyKept(ps: seq<Passage>, line: Option<string>, destination: Option<string>, p: Passage)
    requires p in ps && Selected(p, line, destination)
    ensures LigneDestination(p) in Keys(Filtered(ps, line, destination))
  {
    var byLine := LineFiltered(ps, line);
    var selected := DestinationFiltered(byLine, destination);
    LineFilteredExact(ps, line);
    assert p in byLine;
    DestinationFilteredExact(byLine, destination);
    assert p in selected;
    var j :| 0 <= j < |selected| && selected[j] == p;
    assert Keys(selected)[j] == LigneDestination(p);
    DeduplicatedKeys(selected);
  }


  /** Filtering twice with the same parameters is filtering once. */
  lemma FilteredIdempotent(ps: seq<Passage>, line: Option<string>, destination: Option<string>)
    ensures Filtered(Filtered(ps, line, destination), line, destination) == Filtered(ps, line, destination)
  {
    var r := Filtered(ps, line, destination);
    FilteredSound(ps, line, destination);
    if IsActive(line) {
      forall i | 0 <= i < |r| ensures LineFilter(line.value)(r[i]) {
        assert r[i] in r;
      }
      FilterAllKept(r, LineFilter(line.value));
    }
    assert LineFiltered(r, line) == r;
    if IsActive(destination) {
      forall i | 0 <= i < |r| ensures DestinationFilter(destination.value)(r[i]) {
        assert r[i] in r;
      }
      FilterAllKept(r, DestinationFilter(destination.value));
    }
    assert DestinationFiltered(r, destination) == r;
    DeduplicatedOfUnique(r);
  }
}
