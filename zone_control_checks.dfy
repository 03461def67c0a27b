/** app/zone_control/page.tsx: one table row per constituency with two data-quality
    checks, each shown green when it holds and red otherwise. */
module ZoneControlChecks {
  import opened ElectionTypes
  import opened Collections

  /** The figures and outcomes of one zone's row. */
  datatype ZoneCheck = ZoneCheck(
    zone: InfoZone,
    sumOfGoodInvalidNo: int,
    sumOfAllVotes: int,
    ballotsBalanced: bool,
    candidateVotesBalanced: bool)

  /** The page: the zone count it prints and its rows. */
  datatype ZoneControlPage = ZoneControlPage(zoneCount: nat, rows: seq<ZoneCheck>)

  function VoteOf(c: Candidate): int
  {
    c.vote
  }

  function BallotSum<D>(item: ZoneItem<D>): int
  {
    item.infoZone.goodVote + item.infoZone.invalidVote + item.infoZone.noVote
  }

  /** The row of one zone: good + invalid + no ballots checked against `total_vote`, and
      the candidates' votes checked against `good_vote` (not `total_vote`). */
  function CheckZone(item: ZoneControlItem): (r: ZoneCheck)
    ensures r.zone == item.infoZone
    ensures r.sumOfGoodInvalidNo == BallotSum(item)
    ensures r.sumOfAllVotes == Sum(item.data, VoteOf)
    ensures r.ballotsBalanced <==> r.sumOfGoodInvalidNo == item.infoZone.totalVote
    ensures r.candidateVotesBalanced <==> r.sumOfAllVotes == item.infoZone.goodVote
    ensures item.data == [] ==> r.sumOfAllVotes == 0
  {
    var info := item.infoZone;
    var sumOfGoodInvalidNo := info.goodVote + info.invalidVote + info.noVote;
    var sumOfAllVotes := Sum(item.data, VoteOf);
    ZoneCheck(info, sumOfGoodInvalidNo, sumOfAllVotes,
              sumOfGoodInvalidNo == info.totalVote, sumOfAllVotes == info.goodVote)
  }

  /** The page over the (already sorted) constituency snapshot: one row per zone, in the
      snapshot's order. */
  function ZoneControlPageOf(zoneControl: seq<ZoneControlItem>): (p: ZoneControlPage)
    ensures p.zoneCount == |zoneControl| == |p.rows|
    ensures forall i :: 0 <= i < |zoneControl| ==> p.rows[i] == CheckZone(zoneControl[i])
    ensures forall i :: 0 <= i < |zoneControl| ==> p.rows[i].zone == zoneControl[i].infoZone
  {
    ZoneControlPage(|zoneControl|, seq(|zoneControl|, i requires 0 <= i < |zoneControl| => CheckZone(zoneControl[i])))
  }

  /** When every row passes the first check, the nationwide `total_vote` equals the
      nationwide good + invalid + no ballots; when every row passes both, it equals the
      candidates' votes plus the invalid and no-vote ballots. */
  lemma {:induction false} AllRowsBalanced(zoneControl: seq<ZoneControlItem>)
    requires forall i :: 0 <= i < |zoneControl| ==> CheckZone(zoneControl[i]).ballotsBalanced
    ensures TotalVotes(zoneControl) == Sum(zoneControl, BallotSum)
    ensures (forall i :: 0 <= i < |zoneControl| ==> CheckZone(zoneControl[i]).candidateVotesBalanced)
            ==> TotalVotes(zoneControl) == Sum(zoneControl, CastBeyondCandidates)
    decreases |zoneControl|
  {
    if zoneControl != [] {
      var init := zoneControl[..|zoneControl| - 1];
      assert forall i :: 0 <= i < |init| ==> init[i] == zoneControl[i];
      AllRowsBalanced(init);
    }
  }

  /** When every row of the page is green in the first column, the nationwide
      `total_vote` is the nationwide good + invalid + no ballots; when every row is green
      in both, it is the candidates' votes plus the invalid and no-vote ballots. */
  lemma PageBalanced(zoneControl: seq<ZoneControlItem>)
    requires forall i :: 0 <= i < |zoneControl| ==> ZoneControlPageOf(zoneControl).rows[i].ballotsBalanced
    ensures TotalVotes(zoneControl) == Sum(zoneControl, BallotSum)
    ensures (forall i :: 0 <= i < |zoneControl| ==> ZoneControlPageOf(zoneControl).rows[i].candidateVotesBalanced)
            ==> TotalVotes(zoneControl) == Sum(zoneControl, CastBeyondCandidates)
  {
    var p := ZoneControlPageOf(zoneControl);
    assert forall i :: 0 <= i < |zoneControl| ==> CheckZone(zoneControl[i]) == p.rows[i];
    AllRowsBalanced(zoneControl);
  }

  /** Candidates' votes plus the invalid and no-vote ballots of one zone. */
  function CastBeyondCandidates(item: ZoneControlItem): int
  {
    Sum(item.data, VoteOf) + item.infoZone.invalidVote + item.infoZone.noVote
  }
}
