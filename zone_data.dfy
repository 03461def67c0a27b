/** lib/data.ts: both snapshot loaders sort the imported zone array in place by numeric
    province id, then numeric zone number, and return that same array. */
module ZoneData {
  import opened ElectionTypes
  import opened Ordering

  /** The comparator both loaders pass to `sort`: the province id difference when it is
      non-zero, otherwise the zone number difference. */
  function CompareZones<D>(a: ZoneItem<D>, b: ZoneItem<D>): (c: int)
    ensures c == 0 <==> a.infoZone.provinceId == b.infoZone.provinceId && a.infoZone.zone == b.infoZone.zone
    ensures c <= 0 <==> LexLe(ZoneRank(a), ZoneRank(b))
  {
    LexLeFields(ZoneRank(a), ZoneRank(b));
    var provinceDiff := a.infoZone.provinceId - b.infoZone.provinceId;
    if provinceDiff != 0 then provinceDiff else a.infoZone.zone - b.infoZone.zone
  }

  /** Zones ordered by province id, then by zone number within a province. */
  ghost predicate ZonesOrdered<D>(s: seq<ZoneItem<D>>)
  {
    forall i, j :: 0 <= i < j < |s| ==>
      s[i].infoZone.provinceId < s[j].infoZone.provinceId
      || (s[i].infoZone.provinceId == s[j].infoZone.provinceId && s[i].infoZone.zone <= s[j].infoZone.zone)
  }

  /** Sorting by the zone rank orders zones by province, then zone, and neither adds nor
      drops a zone. */
  lemma SortedZones<D>(s: seq<ZoneItem<D>>)
    ensures ZonesOrdered(SortBy(s, ZoneRank))
    ensures multiset(SortBy(s, ZoneRank)) == multiset(s)
  {
    var r := SortBy(s, ZoneRank);
    forall i, j | 0 <= i < j < |r|
      ensures r[i].infoZone.provinceId < r[j].infoZone.provinceId
              || (r[i].infoZone.provinceId == r[j].infoZone.provinceId && r[i].infoZone.zone <= r[j].infoZone.zone)
    {
      assert LexLe(ZoneRank(r[i]), ZoneRank(r[j]));
      assert CompareZones(r[i], r[j]) <= 0;
    }
  }

  /** `getZoneControlData`: sorts the constituency snapshot in place and returns it. */
  method GetZoneControlData(zoneControl: array<ZoneControlItem>) returns (r: array<ZoneControlItem>)
    modifies zoneControl
    ensures r == zoneControl
    ensures r[..] == SortBy(old(zoneControl[..]), ZoneRank)
  {
    SortInPlace(zoneControl, ZoneRank);
    r := zoneControl;
  }

  /** `getZonePartyListControlData`: the same ordering applied to the party-list snapshot. */
  method GetZonePartyListControlData(zonePartyListControl: array<ZonePartyListControlItem>)
    returns (r: array<ZonePartyListControlItem>)
    modifies zonePartyListControl
    ensures r == zonePartyListControl
    ensures r[..] == SortBy(old(zonePartyListControl[..]), ZoneRank)
  {
    SortInPlace(zonePartyListControl, ZoneRank);
    r := zonePartyListControl;
  }
}
