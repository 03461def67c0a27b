/** app/components/Compare.tsx: the nationwide total of `total_vote` in the party-list
    snapshot against the same total in the constituency snapshot. */
module CompareTotals {
  import opened ElectionTypes
  import opened Collections
  import opened Ordering

  /** The two totals, their difference, and whether the difference is shown as good. */
  datatype TotalsComparison = TotalsComparison(
    partyListTotal: int,
    zoneControlTotal: int,
    diff: int,
    ok: bool)

  function Compare(zonePartyListControl: seq<ZonePartyListControlItem>, zoneControl: seq<ZoneControlItem>)
    : (r: TotalsComparison)
    ensures r.partyListTotal == TotalVotes(zonePartyListControl)
    ensures r.zoneControlTotal == TotalVotes(zoneControl)
    ensures r.diff == r.zoneControlTotal - r.partyListTotal
    ensures r.ok <==> r.diff == 0
    ensures r.ok <==> r.partyListTotal == r.zoneControlTotal
    ensures r.diff > 0 <==> r.zoneControlTotal > r.partyListTotal
  {
    var totalZonePartyListControlVotes := TotalVotes(zonePartyListControl);
    var totalZoneControlVotes := TotalVotes(zoneControl);
    var diff := totalZoneControlVotes - totalZonePartyListControlVotes;
    TotalsComparison(totalZonePartyListControlVotes, totalZoneControlVotes, diff, diff == 0)
  }

  /** A total is the fold from 0: nothing sums to 0, one zone to its own total, and a
      concatenation to the sum of its parts. */
  lemma TotalVotesFold<D>(a: seq<ZoneItem<D>>, b: seq<ZoneItem<D>>, z: ZoneItem<D>)
    ensures TotalVotes<D>([]) == 0
    ensures TotalVotes([z]) == z.infoZone.totalVote
    ensures TotalVotes(a + b) == TotalVotes(a) + TotalVotes(b)
  {
    assert [z][..0] == [];
    SumAppend(a, b, TotalVoteOf);
  }

  /** Two empty snapshots compare as equal. */
  lemma CompareEmpty()
    ensures Compare([], []).diff == 0 && Compare([], []).ok
  {
  }

  /** The comparison does not depend on the order of the zones, so it is the same before
      and after the loaders sort the snapshots by province and zone. */
  lemma CompareOrderIndependent(zonePartyListControl: seq<ZonePartyListControlItem>, zoneControl: seq<ZoneControlItem>)
    ensures Compare(SortBy(zonePartyListControl, ZoneRank), SortBy(zoneControl, ZoneRank))
         == Compare(zonePartyListControl, zoneControl)
  {
    SumSortBy(zonePartyListControl, ZoneRank, TotalVoteOf);
    SumSortBy(zoneControl, ZoneRank, TotalVoteOf);
  }
}
