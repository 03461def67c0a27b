/** app/components/CloseRaceInvalidFlips.tsx: zones whose winner leads the runner-up by a
    margin that is small relative to the zone's total vote, and no larger than the zone's
    invalid ballots, so that the invalid ballots alone could have reversed the result. */
module CloseRace {
  import opened Wrappers
  import opened Text
  import opened Ordering
  import opened ElectionTypes

  /** The threshold (a percentage) used when the caller gives none. */
  const DefaultMarginSignificantPct: real := 10.0

  /** Rank 1 or rank 2 of a flagged zone as the table shows it. */
  datatype RankedCandidate = RankedCandidate(party: string, name: string, votes: int)

  /** `CloseRaceRow`: one flagged zone. */
  datatype CloseRaceRow = CloseRaceRow(
    province: string,
    zone: nat,
    zoneId: string,
    rank1: RankedCandidate,
    rank2: RankedCandidate,
    margin: int,
    invalidVote: int,
    totalVote: int,
    marginPct: real)

  /** `SortInvalidOrder`: `"asc"`, `"desc"` or `""`. */
  datatype SortInvalidOrder = Asc | Desc | Unsorted

  /** `i` is the first position in `data` holding a candidate of the given rank. */
  ghost predicate FirstWithRank(data: seq<Candidate>, rank: int, i: int)
  {
    0 <= i < |data| && data[i].rank == rank && forall j :: 0 <= j < i ==> data[j].rank != rank
  }

  /** `data.find((c) => c.rank === rank)`, as the position of the candidate found. */
  function FindRank(data: seq<Candidate>, rank: int): (r: Option<nat>)
    ensures r.Some? ==> r.value < |data|
    decreases |data|
  {
    if data == [] then None
    else if data[0].rank == rank then Some(0)
    else
      match FindRank(data[1..], rank)
      case None => None
      case Some(k) => Some(k + 1)
  }

  /** `find` returns the first candidate of the rank, and nothing exactly when no
      candidate has it. */
  lemma {:induction false} FindRankSpec(data: seq<Candidate>, rank: int)
    ensures FindRank(data, rank).Some? ==> FirstWithRank(data, rank, FindRank(data, rank).value)
    ensures FindRank(data, rank).None? <==> forall j :: 0 <= j < |data| ==> data[j].rank != rank
    decreases |data|
  {
    if data != [] && data[0].rank != rank {
      FindRankSpec(data[1..], rank);
      assert forall j :: 1 <= j < |data| ==> data[j] == data[1..][j - 1];
    }
  }

  /** `${first_name} ${last_name}` without surrounding whitespace. */
  function DisplayName(c: Candidate): (name: string)
    ensures name == Trim(c.firstName + " " + c.lastName)
  {
    Trim(c.firstName + " " + c.lastName)
  }

  /** The shown name neither starts nor ends with whitespace. */
  lemma DisplayNameTrimmed(c: Candidate)
    ensures var name := DisplayName(c);
      name != [] ==> !IsWhitespace(name[0]) && !IsWhitespace(name[|name| - 1])
  {
    TrimEnds(c.firstName + " " + c.lastName);
  }

  /** A name whose parts carry no outer whitespace is shown as the two parts joined by one
      space. */
  lemma DisplayNameClean(c: Candidate)
    requires c.firstName != [] && !IsWhitespace(c.firstName[0])
    requires c.lastName != [] && !IsWhitespace(c.lastName[|c.lastName| - 1])
    ensures DisplayName(c) == c.firstName + " " + c.lastName
  {
    var s := c.firstName + " " + c.lastName;
    assert s[0] == c.firstName[0] && s[|s| - 1] == c.lastName[|c.lastName| - 1];
    TrimUntouched(s);
  }

  /** `totalVote ? (margin / totalVote) * 100 : 0`: the margin as a percentage of the
      total vote, and 0 when the total is 0. */
  function MarginPct(margin: int, totalVote: int): (pct: real)
    ensures totalVote == 0 ==> pct == 0.0
    ensures totalVote != 0 ==> pct * (totalVote as real) == (margin as real) * 100.0
  {
    if totalVote != 0 then (margin as real / totalVote as real) * 100.0 else 0.0
  }

  /** For a positive total, the percentage test is the division-free comparison
      `margin * 100 < threshold * totalVote`. */
  lemma MarginPctBelow(margin: int, totalVote: int, threshold: real)
    requires totalVote > 0
    ensures MarginPct(margin, totalVote) < threshold <==> (margin as real) * 100.0 < threshold * (totalVote as real)
  {
    var p := MarginPct(margin, totalVote);
    var t := totalVote as real;
    assert p * t == (margin as real) * 100.0;
    if p < threshold {
      assert p * t < threshold * t;
    } else {
      assert p * t >= threshold * t;
    }
  }

  /** The row pushed for a flagged zone: its figures copied, both candidates' party,
      display name and votes, and the lead of rank 1 over rank 2. */
  function FlaggedRow(info: InfoZone, r1: Candidate, r2: Candidate, marginPct: real): CloseRaceRow
  {
    CloseRaceRow(
      info.province, info.zone, info.zoneId,
      RankedCandidate(r1.party, DisplayName(r1), r1.vote),
      RankedCandidate(r2.party, DisplayName(r2), r2.vote),
      r1.vote - r2.vote, info.invalidVote, info.totalVote, marginPct)
  }

  /** The outcome for a zone once `find` has returned `r1` for rank 1 and `r2` for rank 2:
      no row when rank 1 does not lead, the pushed row when the lead is not significant and
      the invalid ballots could cover it, and no row otherwise. */
  function RankedRow(info: InfoZone, r1: Candidate, r2: Candidate, marginSignificantPct: real): Option<CloseRaceRow>
  {
    var margin := r1.vote - r2.vote;
    if margin <= 0 then None
    else
      var totalVote := info.totalVote;
      var invalidVote := info.invalidVote;
      var marginPct := MarginPct(margin, totalVote);
      var notSignificant := marginPct < marginSignificantPct;
      var invalidCouldFlip := invalidVote >= margin;
      if notSignificant && invalidCouldFlip then
        Some(FlaggedRow(info, r1, r2, marginPct))
      else None
  }

  /** The row for one zone when it is flagged, `None` when the loop `continue`s or the
      zone fails the two conditions. */
  function RowFor(item: ZoneControlItem, marginSignificantPct: real): Option<CloseRaceRow>
  {
    var i1 := FindRank(item.data, 1);
    var i2 := FindRank(item.data, 2);
    if i1.None? || i2.None? then None
    else RankedRow(item.infoZone, item.data[i1.value], item.data[i2.value], marginSignificantPct)
  }

  /** Two found candidates give a row exactly when rank 1 leads by a margin below the
      threshold as a percentage of the total vote and no larger than the invalid ballots;
      the row is then the one built from them. */
  lemma RankedRowSome(info: InfoZone, r1: Candidate, r2: Candidate, threshold: real)
    ensures var margin := r1.vote - r2.vote;
            (RankedRow(info, r1, r2, threshold).Some?
             <==> margin > 0 && MarginPct(margin, info.totalVote) < threshold && info.invalidVote >= margin)
    ensures RankedRow(info, r1, r2, threshold).Some? ==>
              RankedRow(info, r1, r2, threshold).value
                == FlaggedRow(info, r1, r2, MarginPct(r1.vote - r2.vote, info.totalVote))
  {
  }

  /** A row shows as rank 1 and rank 2 the first candidates of those ranks in `data`, with
      their parties, display names and votes. */
  lemma RowForRanks(item: ZoneControlItem, threshold: real)
    requires RowFor(item, threshold).Some?
    ensures FindRank(item.data, 1).Some? && FindRank(item.data, 2).Some?
    ensures var r1 := item.data[FindRank(item.data, 1).value];
            RowFor(item, threshold).value.rank1 == RankedCandidate(r1.party, DisplayName(r1), r1.vote)
    ensures var r2 := item.data[FindRank(item.data, 2).value];
            RowFor(item, threshold).value.rank2 == RankedCandidate(r2.party, DisplayName(r2), r2.vote)
  {
    var r1 := item.data[FindRank(item.data, 1).value];
    var r2 := item.data[FindRank(item.data, 2).value];
    RankedRowSome(item.infoZone, r1, r2, threshold);
  }

  /** A row's figures: the margin is the positive lead of rank 1 over rank 2, below the
      threshold as a percentage of the zone's total vote and no larger than its invalid
      ballots; the zone's own figures are copied. */
  lemma RowForFields(item: ZoneControlItem, threshold: real)
    requires RowFor(item, threshold).Some?
    ensures var row := RowFor(item, threshold).value;
            row.margin > 0 && row.margin == row.rank1.votes - row.rank2.votes
            && row.marginPct < threshold && row.invalidVote >= row.margin
    ensures var row := RowFor(item, threshold).value;
            row.zoneId == item.infoZone.zoneId && row.province == item.infoZone.province
            && row.zone == item.infoZone.zone
            && row.invalidVote == item.infoZone.invalidVote && row.totalVote == item.infoZone.totalVote
            && row.marginPct == MarginPct(row.margin, row.totalVote)
  {
    var r1 := item.data[FindRank(item.data, 1).value];
    var r2 := item.data[FindRank(item.data, 2).value];
    RankedRowSome(item.infoZone, r1, r2, threshold);
  }

  /** The percentage test written without division: below the threshold when the total
      is 0 exactly if the threshold is positive, and otherwise by cross-multiplying with
      the sign of the total taken into account. */
  ghost predicate NotSignificant(margin: int, totalVote: int, threshold: real)
  {
    if totalVote == 0 then 0.0 < threshold
    else if totalVote > 0 then (margin as real) * 100.0 < threshold * (totalVote as real)
    else (margin as real) * 100.0 > threshold * (totalVote as real)
  }

  /** The three tests of a lead: the winner leads, the lead is not significant, and the
      invalid ballots are at least the lead. */
  ghost predicate Flags(margin: int, info: InfoZone, threshold: real)
  {
    margin > 0 && NotSignificant(margin, info.totalVote, threshold) && info.invalidVote >= margin
  }

  /** Positions `i` and `k` hold the first rank-1 and the first rank-2 candidate, and their
      lead passes the tests. */
  ghost predicate FlipAt(item: ZoneControlItem, threshold: real, i: int, k: int)
  {
    FirstWithRank(item.data, 1, i) && FirstWithRank(item.data, 2, k)
    && Flags(item.data[i].vote - item.data[k].vote, item.infoZone, threshold)
  }

  /** A zone is a possible flip: it has a rank-1 and a rank-2 candidate, the first of each
      in `data` order, whose lead passes the three tests. */
  ghost predicate PossibleFlip(item: ZoneControlItem, threshold: real)
  {
    exists i, k :: FlipAt(item, threshold, i, k)
  }

  /** The first candidate of a rank is the one `find` returns. */
  lemma FindRankFirst(data: seq<Candidate>, rank: int, i: int)
    requires FirstWithRank(data, rank, i)
    ensures FindRank(data, rank) == Some(i)
  {
    FindRankSpec(data, rank);
  }

  /** Whatever the sign of the total, the percentage is below the threshold exactly when
      the division-free test says so. */
  lemma MarginPctSpec(margin: int, totalVote: int, threshold: real)
    ensures MarginPct(margin, totalVote) < threshold <==> NotSignificant(margin, totalVote, threshold)
  {
    if totalVote > 0 {
      MarginPctBelow(margin, totalVote, threshold);
    } else if totalVote < 0 {
      var p := MarginPct(margin, totalVote);
      var t := totalVote as real;
      assert p * t == (margin as real) * 100.0;
      if p < threshold {
        assert p * t > threshold * t;
      } else {
        assert p * t <= threshold * t;
      }
    }
  }

  /** The three tests of a lead, with the percentage test as `RowFor` writes it. */
  lemma FlagsPct(margin: int, info: InfoZone, threshold: real)
    ensures Flags(margin, info, threshold) <==>
              margin > 0 && MarginPct(margin, info.totalVote) < threshold && info.invalidVote >= margin
  {
    MarginPctSpec(margin, info.totalVote, threshold);
  }

  /** A possible flip is decided on the candidates `find` returns. */
  lemma PossibleFlipFound(item: ZoneControlItem, threshold: real)
    ensures PossibleFlip(item, threshold) <==>
              FindRank(item.data, 1).Some? && FindRank(item.data, 2).Some?
              && Flags(item.data[FindRank(item.data, 1).value].vote - item.data[FindRank(item.data, 2).value].vote,
                       item.infoZone, threshold)
  {
    var i1 := FindRank(item.data, 1);
    var i2 := FindRank(item.data, 2);
    FindRankSpec(item.data, 1);
    FindRankSpec(item.data, 2);
    if PossibleFlip(item, threshold) {
      var i, k :| FlipAt(item, threshold, i, k);
      FindRankFirst(item.data, 1, i);
      FindRankFirst(item.data, 2, k);
    }
    if i1.Some? && i2.Some? && Flags(item.data[i1.value].vote - item.data[i2.value].vote, item.infoZone, threshold) {
      assert FlipAt(item, threshold, i1.value, i2.value);
    }
  }

  /** A zone yields a row exactly when it is a possible flip. */
  lemma RowForSpec(item: ZoneControlItem, threshold: real)
    ensures RowFor(item, threshold).Some? <==> PossibleFlip(item, threshold)
  {
    PossibleFlipFound(item, threshold);
    if FindRank(item.data, 1).Some? && FindRank(item.data, 2).Some? {
      RowForSpecRanked(item, threshold);
    }
  }

  /** With both ranks found, the row is given exactly when the found candidates pass the
      three tests. */
  lemma RowForSpecRanked(item: ZoneControlItem, threshold: real)
    requires FindRank(item.data, 1).Some? && FindRank(item.data, 2).Some?
    ensures var r1 := item.data[FindRank(item.data, 1).value];
            var r2 := item.data[FindRank(item.data, 2).value];
            RowFor(item, threshold).Some? <==> Flags(r1.vote - r2.vote, item.infoZone, threshold)
  {
    var r1 := item.data[FindRank(item.data, 1).value];
    var r2 := item.data[FindRank(item.data, 2).value];
    RankedRowSome(item.infoZone, r1, r2, threshold);
    FlagsPct(r1.vote - r2.vote, item.infoZone, threshold);
  }

  /** The rows of `computeCloseRaceInvalidFlips`: flagged zones in input order. */
  function CloseRaceRows(zones: seq<ZoneControlItem>, marginSignificantPct: real): (rows: seq<CloseRaceRow>)
    ensures |rows| <= |zones|
    decreases |zones|
  {
    if zones == [] then []
    else
      var last := zones[|zones| - 1];
      CloseRaceRows(zones[..|zones| - 1], marginSignificantPct)
        + match RowFor(last, marginSignificantPct)
          case Some(row) => [row]
          case None => []
  }

  /** One more zone adds its row, if any. */
  lemma CloseRaceRowsStep(zones: seq<ZoneControlItem>, n: nat, threshold: real)
    requires n < |zones|
    ensures CloseRaceRows(zones[..n + 1], threshold)
              == CloseRaceRows(zones[..n], threshold)
                 + match RowFor(zones[n], threshold) case Some(row) => [row] case None => []
  {
    assert zones[..n + 1][..n] == zones[..n];
  }

  /** Detecting over two runs of zones is detecting over each and concatenating: rows keep
      the order of their zones. */
  lemma {:induction false} CloseRaceRowsAppend(a: seq<ZoneControlItem>, b: seq<ZoneControlItem>, threshold: real)
    ensures CloseRaceRows(a + b, threshold) == CloseRaceRows(a, threshold) + CloseRaceRows(b, threshold)
    decreases |b|
  {
    if b == [] {
      assert a + b == a;
    } else {
      var init := b[..|b| - 1];
      assert (a + b)[..|a + b| - 1] == a + init;
      assert (a + b)[|a + b| - 1] == b[|b| - 1];
      CloseRaceRowsAppend(a, init, threshold);
    }
  }

  /** Every row is the row of one of the input zones. */
  lemma {:induction false} CloseRaceRowsSound(zones: seq<ZoneControlItem>, threshold: real)
    ensures forall row :: row in CloseRaceRows(zones, threshold) ==>
              exists i :: 0 <= i < |zones| && RowFor(zones[i], threshold) == Some(row)
    decreases |zones|
  {
    if zones != [] {
      var init := zones[..|zones| - 1];
      CloseRaceRowsSound(init, threshold);
      forall row | row in CloseRaceRows(zones, threshold)
        ensures exists i :: 0 <= i < |zones| && RowFor(zones[i], threshold) == Some(row)
      {
        if row in CloseRaceRows(init, threshold) {
          var i :| 0 <= i < |init| && RowFor(init[i], threshold) == Some(row);
          assert zones[i] == init[i];
        } else {
          assert RowFor(zones[|zones| - 1], threshold) == Some(row);
        }
      }
    }
  }

  /** Every zone that yields a row has that row in the output. */
  lemma {:induction false} CloseRaceRowsComplete(zones: seq<ZoneControlItem>, threshold: real)
    ensures forall i :: 0 <= i < |zones| && RowFor(zones[i], threshold).Some? ==>
              RowFor(zones[i], threshold).value in CloseRaceRows(zones, threshold)
    decreases |zones|
  {
    if zones != [] {
      var init, last := zones[..|zones| - 1], zones[|zones| - 1];
      CloseRaceRowsComplete(init, threshold);
      var tail := match RowFor(last, threshold) case Some(row) => [row] case None => [];
      assert CloseRaceRows(zones, threshold) == CloseRaceRows(init, threshold) + tail;
      forall i | 0 <= i < |zones| && RowFor(zones[i], threshold).Some?
        ensures RowFor(zones[i], threshold).value in CloseRaceRows(zones, threshold)
      {
        if i < |init| {
          assert zones[i] == init[i];
        } else {
          assert i == |zones| - 1;
          assert tail == [RowFor(last, threshold).value];
        }
      }
    }
  }

  /** The output holds exactly the rows of the zones that are possible flips: every row
      is the row of a possible-flip zone of the input, and every possible-flip zone has its
      row in the output. */
  lemma CloseRaceRowsSpec(zones: seq<ZoneControlItem>, threshold: real)
    ensures forall row :: row in CloseRaceRows(zones, threshold) ==>
              exists i :: 0 <= i < |zones| && RowFor(zones[i], threshold) == Some(row) && PossibleFlip(zones[i], threshold)
    ensures forall i :: 0 <= i < |zones| && PossibleFlip(zones[i], threshold) ==>
              RowFor(zones[i], threshold).Some? && RowFor(zones[i], threshold).value in CloseRaceRows(zones, threshold)
  {
    CloseRaceRowsSound(zones, threshold);
    CloseRaceRowsComplete(zones, threshold);
    forall i | 0 <= i < |zones|
      ensures RowFor(zones[i], threshold).Some? <==> PossibleFlip(zones[i], threshold)
    {
      RowForSpec(zones[i], threshold);
    }
  }

  /** The worked case: leads of 1000 to 950 in a zone of 20000 ballots with 60 invalid is a
      margin of 50, 0.25 per cent, and is flagged. */
  lemma CloseRaceExample(z: InfoZone, r1: Candidate, r2: Candidate)
    requires z.totalVote == 20000 && z.invalidVote == 60
    requires r1.rank == 1 && r1.vote == 1000 && r2.rank == 2 && r2.vote == 950
    ensures var row := RowFor(ZoneItem(z, [r1, r2]), DefaultMarginSignificantPct);
            row.Some? && row.value.margin == 50 && row.value.marginPct == 0.25
  {
    var item := ZoneItem(z, [r1, r2]);
    assert FindRank(item.data, 1) == Some(0);
    assert FindRank(item.data[1..], 2) == Some(0);
    assert MarginPct(50, 20000) == 0.25;
  }

  /** `computeCloseRaceInvalidFlips`: one pass over the zones, `continue` on a missing rank
      or a non-positive margin, and a push for each flagged zone. */
  method ComputeCloseRaceInvalidFlips(zoneControl: seq<ZoneControlItem>, marginSignificantPct: real)
    returns (rows: seq<CloseRaceRow>)
    ensures rows == CloseRaceRows(zoneControl, marginSignificantPct)
  {
    rows := [];
    for n := 0 to |zoneControl|
      invariant rows == CloseRaceRows(zoneControl[..n], marginSignificantPct)
    {
      CloseRaceRowsStep(zoneControl, n, marginSignificantPct);
      var item := zoneControl[n];
      var info := item.infoZone;
      var i1 := FindRank(item.data, 1);
      var i2 := FindRank(item.data, 2);
      if i1.None? || i2.None? {
        assert RowFor(item, marginSignificantPct) == None;
        continue;
      }
      var r1 := item.data[i1.value];
      var r2 := item.data[i2.value];
      assert RowFor(item, marginSignificantPct) == RankedRow(info, r1, r2, marginSignificantPct);
      var margin := r1.vote - r2.vote;
      if margin <= 0 {
        continue;
      }
      var totalVote := info.totalVote;
      var invalidVote := info.invalidVote;
      var marginPct := MarginPct(margin, totalVote);
      var notSignificant := marginPct < marginSignificantPct;
      var invalidCouldFlip := invalidVote >= margin;
      if notSignificant && invalidCouldFlip {
        rows := rows + [FlaggedRow(info, r1, r2, marginPct)];
      }
    }
    assert zoneControl[..|zoneControl|] == zoneControl;
  }

  function InvalidAscending(row: CloseRaceRow): seq<int>
  {
    [row.invalidVote]
  }

  function InvalidDescending(row: CloseRaceRow): seq<int>
  {
    [-row.invalidVote]
  }

  /** `(a, b) => a.invalidVote - b.invalidVote` agrees with the ascending rank. */
  function CompareInvalidAsc(a: CloseRaceRow, b: CloseRaceRow): (c: int)
    ensures c <= 0 <==> LexLe(InvalidAscending(a), InvalidAscending(b))
  {
    LexLeFields(InvalidAscending(a), InvalidAscending(b));
    a.invalidVote - b.invalidVote
  }

  /** `(a, b) => b.invalidVote - a.invalidVote` agrees with the descending rank. */
  function CompareInvalidDesc(a: CloseRaceRow, b: CloseRaceRow): (c: int)
    ensures c <= 0 <==> LexLe(InvalidDescending(a), InvalidDescending(b))
  {
    LexLeFields(InvalidDescending(a), InvalidDescending(b));
    b.invalidVote - a.invalidVote
  }

  /** The `CloseRaceInvalidFlips` component: the threshold defaults to 10, the rows are
      re-sorted into a copy for `"asc"` or `"desc"`, and nothing is shown (`None`) when no
      zone is flagged. */
  method CloseRaceInvalidFlips(zoneControl: seq<ZoneControlItem>, marginSignificantPct: Option<real>,
                               sortInvalidOrder: SortInvalidOrder)
    returns (shown: Option<seq<CloseRaceRow>>)
    ensures var computed := CloseRaceRows(zoneControl, marginSignificantPct.GetOr(DefaultMarginSignificantPct));
            && (shown.None? <==> computed == [])
            && (shown.Some? ==> multiset(shown.value) == multiset(computed))
            && (shown.Some? && sortInvalidOrder == Unsorted ==> shown.value == computed)
            && (shown.Some? && sortInvalidOrder == Asc ==> shown.value == SortBy(computed, InvalidAscending))
            && (shown.Some? && sortInvalidOrder == Desc ==> shown.value == SortBy(computed, InvalidDescending))
            && (shown.Some? && sortInvalidOrder == Asc ==>
                  forall i, j :: 0 <= i < j < |shown.value| ==> shown.value[i].invalidVote <= shown.value[j].invalidVote)
            && (shown.Some? && sortInvalidOrder == Desc ==>
                  forall i, j :: 0 <= i < j < |shown.value| ==> shown.value[i].invalidVote >= shown.value[j].invalidVote)
  {
    var threshold := marginSignificantPct.GetOr(DefaultMarginSignificantPct);
    var rows := ComputeCloseRaceInvalidFlips(zoneControl, threshold);
    if sortInvalidOrder == Asc {
      rows := SortBy(rows, InvalidAscending);
      forall i, j | 0 <= i < j < |rows|
        ensures rows[i].invalidVote <= rows[j].invalidVote
      {
        assert LexLe(InvalidAscending(rows[i]), InvalidAscending(rows[j]));
        LexLeFields(InvalidAscending(rows[i]), InvalidAscending(rows[j]));
      }
    } else if sortInvalidOrder == Desc {
      rows := SortBy(rows, InvalidDescending);
      forall i, j | 0 <= i < j < |rows|
        ensures rows[i].invalidVote >= rows[j].invalidVote
      {
        assert LexLe(InvalidDescending(rows[i]), InvalidDescending(rows[j]));
        LexLeFields(InvalidDescending(rows[i]), InvalidDescending(rows[j]));
      }
    }
    if |rows| == 0 {
      return None;
    }
    shown := Some(rows);
  }
}
