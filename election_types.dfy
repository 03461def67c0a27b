/** The shapes of the election snapshots (app/types.d.ts). Only the fields the dashboard
    reads are kept. `province_id`, `zone` and `candidate_no` are held as the numbers
    `Number(...)` reads from their well-formed decimal text. */
module ElectionTypes {
  import opened Collections

  /** `info_zone`: aggregate figures of one constituency in one snapshot. */
  datatype InfoZone = InfoZone(
    zoneId: string,
    provinceId: nat,
    province: string,
    zone: nat,
    totalVote: int,
    goodVote: int,
    invalidVote: int,
    noVote: int,
    eligible: int)

  /** One constituency candidate's tally (`ZoneControlDataItem`). */
  datatype Candidate = Candidate(
    rank: int,
    vote: int,
    candidateNo: nat,
    firstName: string,
    lastName: string,
    partyId: string,
    party: string)

  /** One party's party-list tally in a zone (`ZonePartyListControlDataItem`). */
  datatype PartyResult = PartyResult(rank: int, vote: int, partyId: string, party: string)

  /** A zone record of either snapshot kind: its `info_zone` and its `data` rows. */
  datatype ZoneItem<D> = ZoneItem(infoZone: InfoZone, data: seq<D>)

  type ZoneControlItem = ZoneItem<Candidate>
  type ZonePartyListControlItem = ZoneItem<PartyResult>

  /** The fields both zone sorts compare: numeric province id, then numeric zone. */
  function ZoneRank<D>(item: ZoneItem<D>): seq<int>
  {
    [item.infoZone.provinceId, item.infoZone.zone]
  }

  function TotalVoteOf<D>(item: ZoneItem<D>): int
  {
    item.infoZone.totalVote
  }

  /** `items.reduce((acc, z) => acc + z.info_zone.total_vote, 0)`. */
  function TotalVotes<D>(items: seq<ZoneItem<D>>): int
  {
    Sum(items, TotalVoteOf)
  }
}
